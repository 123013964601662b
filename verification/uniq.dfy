/**
  The dedup loop of `main`, as a pure fold over the already decoded lines.

  Each record's key is taken with `StringValue`. A key not seen before is
  added to the seen set and the record is written out; a key already seen
  drops the record; an extractor error stops the run for good, leaving
  written whatever had been written before it.

  The fold and its lemmas take the key function as a parameter: they hold for
  any extractor, and `KeyOf` supplies the one `main` uses.
 */
module Uniq {
  import opened Wrappers
  import opened Json
  import opened Extractor

  /** What the loop asks of each record: its dedup key, or the error that stops the run. */
  type KeyFn = Doc -> Result<string, Error>

  /** The extractor of `main`: `StringValue` under the configured key. */
  function KeyOf(key: string): KeyFn
  {
    d => StringValue(key, d)
  }

  /** The loop's state: the records written so far, the seen keys, the error that stopped it. */
  datatype State = State(emitted: seq<Doc>, seen: set<string>, halt: Option<Error>)

  /** Nothing written, nothing seen, still running. */
  const Start: State := State([], {}, None)

  /** One pass of the loop body on the next record. */
  function Step(extract: KeyFn, s: State, doc: Doc): State {
    if s.halt.Some? then s
    else
      match extract(doc)
      case Failure(e) => s.(halt := Some(e))
      case Success(k) =>
        if k in s.seen then s else State(s.emitted + [doc], s.seen + {k}, None)
  }

  /** The keys of those records that have one. */
  function KeySet(extract: KeyFn, docs: seq<Doc>): set<string> {
    set j | 0 <= j < |docs| && extract(docs[j]).Success? :: extract(docs[j]).value
  }

  /**
    The state after the loop has read `docs`; it never writes more records
    than it reads.
   */
  function Dedup(extract: KeyFn, docs: seq<Doc>): (s: State)
    ensures |s.emitted| <= |docs|
    decreases |docs|
  {
    if |docs| == 0 then Start else Step(extract, Dedup(extract, docs[..|docs| - 1]), docs[|docs| - 1])
  }

  /**
    Everything written is a record of the input, has a key and is remembered
    in the seen set, and no two written records share a key.
   */
  lemma {:induction false} DedupWrites(extract: KeyFn, docs: seq<Doc>)
    ensures forall j :: 0 <= j < |Dedup(extract, docs).emitted| ==> Dedup(extract, docs).emitted[j] in docs
    ensures forall j :: 0 <= j < |Dedup(extract, docs).emitted| ==>
      extract(Dedup(extract, docs).emitted[j]).Success? &&
      extract(Dedup(extract, docs).emitted[j]).value in Dedup(extract, docs).seen
    ensures forall a, b :: 0 <= a < b < |Dedup(extract, docs).emitted| ==>
      extract(Dedup(extract, docs).emitted[a]) != extract(Dedup(extract, docs).emitted[b])
    decreases |docs|
  {
    if |docs| > 0 {
      var init := docs[..|docs| - 1];
      DedupWrites(extract, init);
      var prev := Dedup(extract, init);
      forall j | 0 <= j < |prev.emitted|
        ensures prev.emitted[j] in docs
      {
        assert prev.emitted[j] in init;
      }
    }
  }

  // ---------------------------------------------------------------------------
  // The reference: first occurrences
  // ---------------------------------------------------------------------------

  /** No earlier record has the same key as the record at `i`. */
  predicate IsFirst(extract: KeyFn, docs: seq<Doc>, i: nat)
    requires i < |docs|
  {
    forall j :: 0 <= j < i ==> extract(docs[j]) != extract(docs[i])
  }

  /**
    The positions below `n` whose record is the first with its key, in
    increasing order.
   */
  function FirstIndices(extract: KeyFn, docs: seq<Doc>, n: nat): (idx: seq<nat>)
    requires n <= |docs|
    ensures forall a, b :: 0 <= a < b < |idx| ==> idx[a] < idx[b]
    ensures forall a :: 0 <= a < |idx| ==> idx[a] < n
    ensures forall i :: 0 <= i < n ==> (i in idx <==> IsFirst(extract, docs, i))
  {
    if n == 0 then []
    else FirstIndices(extract, docs, n - 1) + (if IsFirst(extract, docs, n - 1) then [n - 1] else [])
  }

  /** Every record up to `n` has a key. */
  predicate AllResolve(extract: KeyFn, docs: seq<Doc>, n: nat)
    requires n <= |docs|
  {
    forall j :: 0 <= j < n ==> extract(docs[j]).Success?
  }

  /** The last step of the fold over a prefix. */
  lemma DedupPrefixStep(extract: KeyFn, docs: seq<Doc>, n: nat)
    requires 0 < n <= |docs|
    ensures Dedup(extract, docs[..n]) == Step(extract, Dedup(extract, docs[..n - 1]), docs[n - 1])
  {
    assert docs[..n][..n - 1] == docs[..n - 1];
  }

  /** A key is among those of the first `n` records exactly when one of them has it. */
  lemma {:induction false} InKeySetPrefix(extract: KeyFn, docs: seq<Doc>, n: nat, k: string)
    requires n <= |docs|
    ensures k in KeySet(extract, docs[..n]) <==> exists j :: 0 <= j < n && extract(docs[j]) == Success(k)
  {
    var p := docs[..n];
    if k in KeySet(extract, p) {
      var j :| 0 <= j < |p| && extract(p[j]).Success? && extract(p[j]).value == k;
      assert p[j] == docs[j];
    }
    if exists j :: 0 <= j < n && extract(docs[j]) == Success(k) {
      var j :| 0 <= j < n && extract(docs[j]) == Success(k);
      assert p[j] == docs[j];
    }
  }

  /** Reading one more record is one more step. */
  lemma DedupAppend(extract: KeyFn, docs: seq<Doc>, d: Doc)
    ensures Dedup(extract, docs + [d]) == Step(extract, Dedup(extract, docs), d)
  {
    assert (docs + [d])[..|docs|] == docs;
  }

  /**
    While every record has a key, the fold over the first `n` records has not
    stopped and has seen exactly their keys.
   */
  lemma {:induction false} DedupPrefixSeen(extract: KeyFn, docs: seq<Doc>, n: nat)
    requires n <= |docs| && AllResolve(extract, docs, n)
    ensures Dedup(extract, docs[..n]).halt == None
    ensures Dedup(extract, docs[..n]).seen == KeySet(extract, docs[..n])
  {
    if n > 0 {
      DedupPrefixSeen(extract, docs, n - 1);
      DedupPrefixStep(extract, docs, n);
      var k := extract(docs[n - 1]).value;
      assert docs[..n] == docs[..n - 1] + [docs[n - 1]];
      KeySetAppend(extract, docs[..n - 1], docs[n - 1], k);
    } else {
      assert KeySet(extract, docs[..0]) == {};
    }
  }

  /** `out` lists the records of `docs` at the positions `idx`, in that order. */
  predicate Picks(out: seq<Doc>, docs: seq<Doc>, idx: seq<nat>) {
    && |out| == |idx|
    && forall a :: 0 <= a < |idx| ==> idx[a] < |docs| && out[a] == docs[idx[a]]
  }

  /**
    While every record has a key, the fold over the first `n` records has
    written exactly the first occurrences among them, in order.
   */
  lemma {:induction false} DedupPrefixEmitted(extract: KeyFn, docs: seq<Doc>, n: nat)
    requires n <= |docs| && AllResolve(extract, docs, n)
    ensures Picks(Dedup(extract, docs[..n]).emitted, docs, FirstIndices(extract, docs, n))
  {
    if n > 0 {
      DedupPrefixEmitted(extract, docs, n - 1);
      DedupPrefixSeen(extract, docs, n - 1);
      DedupPrefixStep(extract, docs, n);
      var prev := Dedup(extract, docs[..n - 1]);
      var idx := FirstIndices(extract, docs, n - 1);
      var k := extract(docs[n - 1]).value;
      InKeySetPrefix(extract, docs, n - 1, k);
      if k in prev.seen {
        var j :| 0 <= j < n - 1 && extract(docs[j]) == Success(k);
        assert !IsFirst(extract, docs, n - 1);
        assert FirstIndices(extract, docs, n) == idx;
      } else {
        assert IsFirst(extract, docs, n - 1);
        assert FirstIndices(extract, docs, n) == idx + [n - 1];
        assert Dedup(extract, docs[..n]).emitted == prev.emitted + [docs[n - 1]];
      }
    } else {
      assert docs[..0] == [];
    }
  }

  /**
    With every record resolving, the output is the in-order subsequence of
    the first occurrences: a record is written if and only if no earlier
    record has the same key.
   */
  lemma {:induction false} DedupFirstOccurrences(extract: KeyFn, docs: seq<Doc>)
    requires AllResolve(extract, docs, |docs|)
    ensures Dedup(extract, docs).halt == None
    ensures |Dedup(extract, docs).emitted| == |FirstIndices(extract, docs, |docs|)|
    ensures forall a :: 0 <= a < |FirstIndices(extract, docs, |docs|)| ==>
      Dedup(extract, docs).emitted[a] == docs[FirstIndices(extract, docs, |docs|)[a]]
    ensures Dedup(extract, docs).seen == KeySet(extract, docs)
  {
    DedupPrefixSeen(extract, docs, |docs|);
    DedupPrefixEmitted(extract, docs, |docs|);
    assert docs[..|docs|] == docs;
  }

  // ---------------------------------------------------------------------------
  // Stopping at the first failure
  // ---------------------------------------------------------------------------

  /** Once stopped, the fold ignores the rest of the input. */
  lemma {:induction false} DedupAfterHalt(extract: KeyFn, docs: seq<Doc>, f: nat, m: nat)
    requires f < m <= |docs|
    requires Dedup(extract, docs[..f + 1]).halt.Some?
    ensures Dedup(extract, docs[..m]) == Dedup(extract, docs[..f + 1])
    decreases m
  {
    if m > f + 1 {
      DedupAfterHalt(extract, docs, f, m - 1);
      DedupPrefixStep(extract, docs, m);
    }
  }

  /**
    The run stops at the first record without a key: the result is what the
    records before it produced, stopped with that record's error.
   */
  lemma {:induction false} DedupHaltsAtFirstFailure(extract: KeyFn, docs: seq<Doc>, f: nat)
    requires f < |docs| && AllResolve(extract, docs, f)
    requires extract(docs[f]).Failure?
    ensures Dedup(extract, docs) == Dedup(extract, docs[..f]).(halt := Some(extract(docs[f]).error))
  {
    DedupPrefixSeen(extract, docs, f);
    DedupPrefixStep(extract, docs, f + 1);
    DedupAfterHalt(extract, docs, f, |docs|);
    assert docs[..|docs|] == docs;
  }

  /** The first record without a key, when there is one. */
  lemma FirstFailure(extract: KeyFn, docs: seq<Doc>) returns (f: nat)
    requires !AllResolve(extract, docs, |docs|)
    ensures f < |docs| && AllResolve(extract, docs, f) && extract(docs[f]).Failure?
  {
    f := 0;
    while extract(docs[f]).Success?
      invariant f < |docs| && AllResolve(extract, docs, f)
      decreases |docs| - f
    {
      f := f + 1;
    }
  }

  /** The run completes exactly when every record has a key. */
  lemma {:induction false} DedupCompletes(extract: KeyFn, docs: seq<Doc>)
    ensures Dedup(extract, docs).halt.None? <==> AllResolve(extract, docs, |docs|)
  {
    if AllResolve(extract, docs, |docs|) {
      DedupFirstOccurrences(extract, docs);
    } else {
      var f := FirstFailure(extract, docs);
      DedupHaltsAtFirstFailure(extract, docs, f);
    }
  }

  // ---------------------------------------------------------------------------
  // The seen set and idempotence
  // ---------------------------------------------------------------------------

  lemma {:induction false} KeySetAppend(extract: KeyFn, docs: seq<Doc>, d: Doc, k: string)
    requires extract(d) == Success(k)
    ensures KeySet(extract, docs + [d]) == KeySet(extract, docs) + {k}
  {
    var e := docs + [d];
    forall x | x in KeySet(extract, e)
      ensures x in KeySet(extract, docs) + {k}
    {
      var j :| 0 <= j < |e| && extract(e[j]).Success? && extract(e[j]).value == x;
      if j < |docs| {
        assert e[j] == docs[j];
      }
    }
    forall x | x in KeySet(extract, docs)
      ensures x in KeySet(extract, e)
    {
      var j :| 0 <= j < |docs| && extract(docs[j]).Success? && extract(docs[j]).value == x;
      assert e[j] == docs[j];
    }
    assert e[|docs|] == d;
  }

  /** Stopped or not, the seen set is exactly the set of keys of the written records. */
  lemma {:induction false} DedupSeenIsEmittedKeys(extract: KeyFn, docs: seq<Doc>)
    ensures Dedup(extract, docs).seen == KeySet(extract, Dedup(extract, docs).emitted)
    decreases |docs|
  {
    if |docs| > 0 {
      var prev := Dedup(extract, docs[..|docs| - 1]);
      DedupSeenIsEmittedKeys(extract, docs[..|docs| - 1]);
      var d := docs[|docs| - 1];
      if prev.halt.None? && extract(d).Success? && extract(d).value !in prev.seen {
        KeySetAppend(extract, prev.emitted, d, extract(d).value);
      }
    } else {
      assert KeySet(extract, []) == {};
    }
  }

  /** Records with pairwise different keys pass through the loop unchanged. */
  lemma {:induction false} DedupDistinct(extract: KeyFn, docs: seq<Doc>, n: nat)
    requires n <= |docs| && AllResolve(extract, docs, |docs|)
    requires forall a, b :: 0 <= a < b < |docs| ==> extract(docs[a]) != extract(docs[b])
    ensures Dedup(extract, docs[..n]).emitted == docs[..n]
  {
    if n > 0 {
      DedupDistinct(extract, docs, n - 1);
      DedupPrefixSeen(extract, docs, n - 1);
      DedupPrefixStep(extract, docs, n);
      var k := extract(docs[n - 1]).value;
      InKeySetPrefix(extract, docs, n - 1, k);
      assert docs[..n] == docs[..n - 1] + [docs[n - 1]];
    } else {
      assert docs[..0] == [];
    }
  }

  /**
    Deduplicating the output again changes nothing: the same records, the
    same seen set, and no error.
   */
  lemma {:induction false} DedupIdempotent(extract: KeyFn, docs: seq<Doc>)
    ensures Dedup(extract, Dedup(extract, docs).emitted) == Dedup(extract, docs).(halt := None)
  {
    var s := Dedup(extract, docs);
    var e := s.emitted;
    DedupWrites(extract, docs);
    assert AllResolve(extract, e, |e|);
    assert e[..|e|] == e;
    assert Dedup(extract, e).emitted == e by {
      DedupDistinct(extract, e, |e|);
    }
    assert Dedup(extract, e).halt == None && Dedup(extract, e).seen == KeySet(extract, e) by {
      DedupPrefixSeen(extract, e, |e|);
    }
    assert s.seen == KeySet(extract, e) by {
      DedupSeenIsEmittedKeys(extract, docs);
    }
  }

  // ---------------------------------------------------------------------------
  // The loop itself
  // ---------------------------------------------------------------------------

  /**
    The read-resolve-check-write loop of `main` over the decoded records. It
    ends in the state of the fold: on an extractor error it stops with that
    error, having written what the records before produced; the seen set is
    always the keys of the written records.
   */
  method Run(key: string, docs: seq<Doc>) returns (emitted: seq<Doc>, seen: set<string>, halt: Option<Error>)
    ensures State(emitted, seen, halt) == Dedup(KeyOf(key), docs)
    ensures seen == KeySet(KeyOf(key), emitted)
  {
    var extract := KeyOf(key);
    emitted, seen, halt := [], {}, None;
    var i := 0;
    while i < |docs|
      invariant 0 <= i <= |docs|
      invariant AllResolve(extract, docs, i)
      invariant State(emitted, seen, None) == Dedup(extract, docs[..i])
    {
      var r := StringValue(key, docs[i]);
      if r.Failure? {
        halt := Some(r.error);
        DedupHaltsAtFirstFailure(extract, docs, i);
        DedupSeenIsEmittedKeys(extract, docs);
        return;
      }
      DedupPrefixStep(extract, docs, i + 1);
      if r.value !in seen {
        emitted := emitted + [docs[i]];
        seen := seen + {r.value};
      }
      i := i + 1;
    }
    assert docs[..i] == docs;
    DedupSeenIsEmittedKeys(extract, docs);
  }
}
