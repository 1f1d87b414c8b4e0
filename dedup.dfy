/**
 * The specification of `deduplicate_records` (scripts/parse_spotify_data.py):
 * keep the first record seen for each `get_unique_key`, in input order.
 * The loop that computes it is `Ingestion.DeduplicateRecords`.
 */
module Deduplication {
  import opened Records

  /** The keys of all records of `s`. */
  function KeysOf(s: seq<RawRecord>): set<Key>
    decreases |s|
  {
    if s == [] then {} else KeysOf(s[..|s| - 1]) + {UniqueKey(s[|s| - 1])}
  }

  /** Records in order, each dropped when an earlier record had its key. */
  function Dedup(s: seq<RawRecord>): seq<RawRecord>
    decreases |s|
  {
    if s == [] then []
    else
      var prefix, x := s[..|s| - 1], s[|s| - 1];
      Dedup(prefix) + (if UniqueKey(x) in KeysOf(prefix) then [] else [x])
  }

  /** No record before position `i` has the key of `s[i]`. */
  predicate IsFirstOccurrence(s: seq<RawRecord>, i: nat)
    requires i < |s|
  {
    forall j :: 0 <= j < i ==> UniqueKey(s[j]) != UniqueKey(s[i])
  }

  predicate DistinctKeys(s: seq<RawRecord>) {
    forall i, j :: 0 <= i < j < |s| ==> UniqueKey(s[i]) != UniqueKey(s[j])
  }

  /** The input positions `Dedup` keeps, in increasing order. */
  ghost function KeptPositions(s: seq<RawRecord>): seq<nat>
    decreases |s|
  {
    if s == [] then []
    else
      var prefix := s[..|s| - 1];
      KeptPositions(prefix) + (if UniqueKey(s[|s| - 1]) in KeysOf(prefix) then [] else [|s| - 1])
  }

  lemma {:induction false} KeysOfMembers(s: seq<RawRecord>)
    ensures forall k :: k in KeysOf(s) <==> exists i :: 0 <= i < |s| && UniqueKey(s[i]) == k
    decreases |s|
  {
    if s != [] {
      var prefix := s[..|s| - 1];
      KeysOfMembers(prefix);
      assert forall i :: 0 <= i < |prefix| ==> prefix[i] == s[i];
    }
  }

  /** Deduplication empties only an empty input: the first record is always kept. */
  lemma DedupEmptyIff(s: seq<RawRecord>)
    ensures Dedup(s) == [] <==> s == []
  {
    DedupKeepsEveryKey(s);
    if s != [] {
      assert UniqueKey(s[|s| - 1]) in KeysOf(s);
    }
  }

  /** Deduplication only drops records: every kept record is an input record. */
  lemma {:induction false} DedupMembers(s: seq<RawRecord>)
    ensures forall x :: x in Dedup(s) ==> x in s
    decreases |s|
  {
    if s != [] {
      var prefix := s[..|s| - 1];
      DedupMembers(prefix);
      assert s == prefix + [s[|s| - 1]];
    }
  }

  /** Every input key is represented by a kept input record with that key. */
  lemma KeyRepresented(s: seq<RawRecord>, r: RawRecord) returns (k: nat)
    requires r in s
    ensures k < |Dedup(s)| && UniqueKey(Dedup(s)[k]) == UniqueKey(r) && Dedup(s)[k] in s
  {
    KeysOfMembers(s);
    var j :| 0 <= j < |s| && s[j] == r;
    assert UniqueKey(r) in KeysOf(s);
    DedupKeepsEveryKey(s);
    KeysOfMembers(Dedup(s));
    k :| 0 <= k < |Dedup(s)| && UniqueKey(Dedup(s)[k]) == UniqueKey(r);
    DedupMembers(s);
    assert Dedup(s)[k] in Dedup(s);
  }

  lemma {:induction false} KeysOfAppend(a: seq<RawRecord>, b: seq<RawRecord>)
    ensures KeysOf(a + b) == KeysOf(a) + KeysOf(b)
    decreases |b|
  {
    if b == [] {
      assert a + b == a;
    } else {
      var b' := b[..|b| - 1];
      assert (a + b)[..|a + b| - 1] == a + b';
      KeysOfAppend(a, b');
    }
  }

  /** Every input key survives deduplication, and no other key appears. */
  lemma {:induction false} DedupKeepsEveryKey(s: seq<RawRecord>)
    ensures KeysOf(Dedup(s)) == KeysOf(s)
    decreases |s|
  {
    if s != [] {
      var prefix, x := s[..|s| - 1], s[|s| - 1];
      DedupKeepsEveryKey(prefix);
      KeysOfAppend(Dedup(prefix), if UniqueKey(x) in KeysOf(prefix) then [] else [x]);
      assert KeysOf([x]) == {UniqueKey(x)} by {
        assert [x][..0] == [];
      }
      assert KeysOf([]) == {};
    }
  }

  /** The output never holds two records with the same key. */
  lemma {:induction false} DedupDistinct(s: seq<RawRecord>)
    ensures DistinctKeys(Dedup(s))
    decreases |s|
  {
    if s != [] {
      var prefix, x := s[..|s| - 1], s[|s| - 1];
      DedupDistinct(prefix);
      var d := Dedup(prefix);
      if UniqueKey(x) !in KeysOf(prefix) {
        DedupKeepsEveryKey(prefix);
        KeysOfMembers(d);
        var e := d + [x];
        forall i, j | 0 <= i < j < |e|
          ensures UniqueKey(e[i]) != UniqueKey(e[j])
        {
          if j == |d| {
            assert UniqueKey(d[i]) in KeysOf(d);
          } else {
            assert e[i] == d[i] && e[j] == d[j];
          }
        }
      }
    }
  }

  /**
   * The output is the subsequence of the input made of the first occurrence
   * of every key: `KeptPositions(s)` are increasing input positions, the output
   * holds the records found there, each of them is a first occurrence, and
   * every first occurrence is among them.
   */
  lemma {:induction false} DedupIsFirstOccurrences(s: seq<RawRecord>)
    ensures |KeptPositions(s)| == |Dedup(s)|
    ensures forall k :: 0 <= k < |Dedup(s)| ==>
      KeptPositions(s)[k] < |s| && Dedup(s)[k] == s[KeptPositions(s)[k]] && IsFirstOccurrence(s, KeptPositions(s)[k])
    ensures forall k1, k2 :: 0 <= k1 < k2 < |Dedup(s)| ==> KeptPositions(s)[k1] < KeptPositions(s)[k2]
    ensures forall i :: 0 <= i < |s| && IsFirstOccurrence(s, i) ==> i in KeptPositions(s)
  {
    KeptPositionsPick(s);
    KeptPositionsIncreasing(s);
    FirstOccurrencesKept(s);
  }

  /** Whether position `i < |prefix|` is a first occurrence does not depend on what follows. */
  lemma FirstOccurrenceInPrefix(s: seq<RawRecord>, i: nat)
    requires i < |s| - 1
    ensures IsFirstOccurrence(s, i) == IsFirstOccurrence(s[..|s| - 1], i)
  {
  }

  /** The last record is a first occurrence exactly when its key is new. */
  lemma LastIsFirstOccurrence(s: seq<RawRecord>)
    requires s != []
    ensures IsFirstOccurrence(s, |s| - 1) <==> UniqueKey(s[|s| - 1]) !in KeysOf(s[..|s| - 1])
  {
    var prefix := s[..|s| - 1];
    KeysOfMembers(prefix);
    if UniqueKey(s[|s| - 1]) in KeysOf(prefix) {
      var j :| 0 <= j < |prefix| && UniqueKey(prefix[j]) == UniqueKey(s[|s| - 1]);
      assert s[j] == prefix[j];
    }
  }

  /** Each kept record is the input record at its position, and a first occurrence. */
  lemma {:induction false} KeptPositionsPick(s: seq<RawRecord>)
    ensures |KeptPositions(s)| == |Dedup(s)|
    ensures forall k :: 0 <= k < |Dedup(s)| ==>
      KeptPositions(s)[k] < |s| && Dedup(s)[k] == s[KeptPositions(s)[k]] && IsFirstOccurrence(s, KeptPositions(s)[k])
    decreases |s|
  {
    if s != [] {
      var prefix, x := s[..|s| - 1], s[|s| - 1];
      KeptPositionsPick(prefix);
      LastIsFirstOccurrence(s);
      var kp, d := KeptPositions(prefix), Dedup(prefix);
      forall k | 0 <= k < |d|
        ensures kp[k] < |s| - 1 && d[k] == s[kp[k]] && IsFirstOccurrence(s, kp[k])
      {
        FirstOccurrenceInPrefix(s, kp[k]);
      }
      if UniqueKey(x) in KeysOf(prefix) {
        assert KeptPositions(s) == kp && Dedup(s) == d;
      } else {
        assert KeptPositions(s) == kp + [|s| - 1] && Dedup(s) == d + [x];
      }
    }
  }

  /** Kept positions are increasing. */
  lemma {:induction false} KeptPositionsIncreasing(s: seq<RawRecord>)
    ensures forall k1, k2 :: 0 <= k1 < k2 < |KeptPositions(s)| ==> KeptPositions(s)[k1] < KeptPositions(s)[k2]
    decreases |s|
  {
    if s != [] {
      var prefix := s[..|s| - 1];
      KeptPositionsIncreasing(prefix);
      KeptPositionsBound(prefix);
    }
  }

  /** Kept positions are positions of the input. */
  lemma {:induction false} KeptPositionsBound(s: seq<RawRecord>)
    ensures forall k :: 0 <= k < |KeptPositions(s)| ==> KeptPositions(s)[k] < |s|
    decreases |s|
  {
    if s != [] {
      KeptPositionsBound(s[..|s| - 1]);
    }
  }

  /** Every first occurrence is kept. */
  lemma {:induction false} FirstOccurrencesKept(s: seq<RawRecord>)
    ensures forall i :: 0 <= i < |s| && IsFirstOccurrence(s, i) ==> i in KeptPositions(s)
    decreases |s|
  {
    if s != [] {
      var prefix := s[..|s| - 1];
      FirstOccurrencesKept(prefix);
      LastIsFirstOccurrence(s);
      forall i | 0 <= i < |prefix| && IsFirstOccurrence(s, i)
        ensures i in KeptPositions(s)
      {
        FirstOccurrenceInPrefix(s, i);
      }
    }
  }

  /** Two records with the same key, one after the other: only the first is kept. */
  lemma DuplicatePairKeepsFirst(a: RawRecord, b: RawRecord)
    requires UniqueKey(a) == UniqueKey(b)
    ensures Dedup([a, b]) == [a]
  {
    assert [a, b][..1] == [a] && [a][..0] == [];
    assert Dedup([a]) == [a];
    assert KeysOf([a]) == {UniqueKey(a)};
    assert Dedup([a, b]) == Dedup([a]) + [];
  }

  /** A sequence whose keys are already distinct is left as it is. */
  lemma {:induction false} DedupOfDistinct(s: seq<RawRecord>)
    requires DistinctKeys(s)
    ensures Dedup(s) == s
    decreases |s|
  {
    if s != [] {
      var prefix, x := s[..|s| - 1], s[|s| - 1];
      DedupOfDistinct(prefix);
      KeysOfMembers(prefix);
    }
  }

  /** Deduplicating twice is deduplicating once. */
  lemma DedupIdempotent(s: seq<RawRecord>)
    ensures Dedup(Dedup(s)) == Dedup(s)
  {
    DedupDistinct(s);
    DedupOfDistinct(Dedup(s));
  }

  /** Appending records never changes what was kept from the records before them. */
  lemma {:induction false} DedupPrefix(a: seq<RawRecord>, b: seq<RawRecord>)
    ensures |Dedup(a)| <= |Dedup(a + b)|
    ensures Dedup(a + b)[..|Dedup(a)|] == Dedup(a)
    decreases |b|
  {
    if b == [] {
      assert a + b == a;
    } else {
      var b' := b[..|b| - 1];
      assert (a + b)[..|a + b| - 1] == a + b';
      DedupPrefix(a, b');
    }
  }

  /**
   * Two records with the same key: the output holds exactly one record with
   * that key, and it comes from a position no later than the earlier of the two.
   */
  lemma EarlierDuplicateWins(s: seq<RawRecord>, i: nat, j: nat)
    requires i < j < |s| && UniqueKey(s[i]) == UniqueKey(s[j])
    ensures |KeptPositions(s)| == |Dedup(s)|
    ensures exists k :: 0 <= k < |Dedup(s)| && UniqueKey(Dedup(s)[k]) == UniqueKey(s[i])
    ensures forall k :: 0 <= k < |Dedup(s)| && UniqueKey(Dedup(s)[k]) == UniqueKey(s[i]) ==> KeptPositions(s)[k] <= i
    ensures forall k1, k2 :: 0 <= k1 < k2 < |Dedup(s)| ==> UniqueKey(Dedup(s)[k1]) != UniqueKey(Dedup(s)[k2])
  {
    DedupIsFirstOccurrences(s);
    DedupDistinct(s);
    DedupKeepsEveryKey(s);
    KeysOfMembers(s);
    KeysOfMembers(Dedup(s));
    assert UniqueKey(s[i]) in KeysOf(s);
  }
}
