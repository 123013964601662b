/**
  `StringValue`: the dedup key of a decoded document under a dot-notation key.

  The key is split on dots and only the first segment is looked up in the
  document. A string there is the key itself, a number is printed with six
  decimals, an object is descended into, anything else is an error. The
  descent passes the SECOND SEGMENT ALONE as the new key, not the rest of the
  path, so the third and later segments are never looked at and the recursion
  is at most two calls deep.
 */
module Extractor {
  import opened Wrappers
  import opened Json
  import opened DotPath
  import opened FixedFormat

  /** One tag per error return of `StringValue`; the message text is not modelled. */
  datatype Error =
    | KeysExhausted            // the split key has no segment (cannot happen)
    | KeyNotFound(key: string) // the segment is not a field of the object
    | NoValueFound             // the path ends on an object
    | NotSupported             // the value is an array
    | UnknownType              // the value is a boolean or null

  /** 1 for a key that can still descend (it has a dot), 0 for a single segment. */
  function Depth(key: string): nat {
    if '.' in key then 1 else 0
  }

  /**
    The key of `doc` under the dot-notation `key`. It never reports
    `KeysExhausted`, and it succeeds only when the first segment is a field
    holding a string, a number or an object.
   */
  function StringValue(key: string, doc: Doc): (r: Result<string, Error>)
    ensures r != Failure(KeysExhausted)
    ensures r.Success? ==> Split(key)[0] in doc && (doc[Split(key)[0]].Str? || doc[Split(key)[0]].Num? || doc[Split(key)[0]].Obj?)
    decreases Depth(key)
  {
    var keys := Split(key);
    if |keys| == 0 then Failure(KeysExhausted)
    else
      var head := keys[0];
      if head !in doc then Failure(KeyNotFound(head))
      else
        match doc[head]
        case Str(s) => Success(s)
        case Obj(m) =>
          if |keys| < 2 then Failure(NoValueFound)
          else
            SplitSingle(key);
            SplitSegmentsDotFree(key);
            assert Depth(keys[1]) < Depth(key);
            StringValue(keys[1], m)
        case Num(n) => Success(FormatFixed6(n))
        case Arr(_) => Failure(NotSupported)
        case Bool(_) => Failure(UnknownType)
        case Null => Failure(UnknownType)
  }

  // ---------------------------------------------------------------------------
  // An independent, non-recursive reading of the same lookup
  // ---------------------------------------------------------------------------

  /** What a value that is not an object yields when the lookup stops at it. */
  function Leaf(v: Json): Result<string, Error>
    requires !v.Obj?
  {
    match v
    case Str(s) => Success(s)
    case Num(n) => Success(FormatFixed6(n))
    case Arr(_) => Failure(NotSupported)
    case Bool(_) => Failure(UnknownType)
    case Null => Failure(UnknownType)
  }

  /** The lookup of a single segment, which cannot descend any further. */
  function LookupLast(k: string, m: Doc): Result<string, Error> {
    if k !in m then Failure(KeyNotFound(k))
    else if m[k].Obj? then Failure(NoValueFound)
    else Leaf(m[k])
  }

  /** The lookup of a path of segments, written as the two levels it reaches. */
  function Resolve(segs: seq<string>, doc: Doc): Result<string, Error>
    requires |segs| >= 1
  {
    var head := segs[0];
    if head !in doc then Failure(KeyNotFound(head))
    else if doc[head].Obj? then
      if |segs| == 1 then Failure(NoValueFound) else LookupLast(segs[1], doc[head].fields)
    else Leaf(doc[head])
  }

  /** A single-segment key resolves as a last lookup. */
  lemma StringValueSingle(k: string, m: Doc)
    requires '.' !in k
    ensures StringValue(k, m) == LookupLast(k, m)
  {
    SplitSingle(k);
  }

  /**
    `StringValue` agrees everywhere with the two-level reading: the recursion
    is at most two lookups deep.
   */
  lemma StringValueResolves(key: string, doc: Doc)
    ensures StringValue(key, doc) == Resolve(Split(key), doc)
  {
    var keys := Split(key);
    if keys[0] in doc && doc[keys[0]].Obj? && |keys| >= 2 {
      SplitSegmentsDotFree(key);
      StringValueSingle(keys[1], doc[keys[0]].fields);
    }
  }

  /** Only the first two segments are consulted: `a.b.c` resolves exactly like `a.b`. */
  lemma StringValueFirstTwoSegments(key: string, doc: Doc)
    requires |Split(key)| >= 2
    ensures StringValue(key, doc) == StringValue(Join(Split(key)[..2]), doc)
  {
    var keys := Split(key);
    SplitSegmentsDotFree(key);
    SplitJoin(keys[..2]);
    StringValueResolves(key, doc);
    StringValueResolves(Join(keys[..2]), doc);
  }

  /** The same fact for a key written out as three dot-free segments. */
  lemma StringValueThirdSegmentIgnored(a: string, b: string, c: string, doc: Doc)
    requires '.' !in a && '.' !in b && '.' !in c
    ensures StringValue(a + "." + b + "." + c, doc) == StringValue(a + "." + b, doc)
  {
    SplitJoin([a, b, c]);
    SplitJoin([a, b]);
    assert Join([a, b, c]) == a + "." + b + "." + c by {
      assert [a, b, c][1..] == [b, c];
      assert [b, c][1..] == [c];
      assert Join([b, c]) == b + "." + c;
      assert a + "." + (b + "." + c) == a + "." + b + "." + c;
    }
    assert Join([a, b]) == a + "." + b by {
      assert [a, b][1..] == [b];
    }
    StringValueFirstTwoSegments(a + "." + b + "." + c, doc);
    assert [a, b, c][..2] == [a, b];
  }

  // ---------------------------------------------------------------------------
  // One lemma per branch of the first lookup
  // ---------------------------------------------------------------------------

  /** A first segment that is not a field is reported as not found, by name. */
  lemma StringValueMissingKey(key: string, doc: Doc)
    requires Split(key)[0] !in doc
    ensures StringValue(key, doc) == Failure(KeyNotFound(Split(key)[0]))
    ensures !StringValue(key, doc).Success?
  {
  }

  /** A string at the first segment is the key itself, whatever segments follow. */
  lemma StringValueStringLeaf(key: string, doc: Doc, s: string)
    requires Split(key)[0] in doc && doc[Split(key)[0]] == Str(s)
    ensures StringValue(key, doc) == Success(s)
  {
  }

  /** An object at the end of the path is not a key. */
  lemma StringValueObjectAtEnd(key: string, doc: Doc)
    requires '.' !in key
    requires key in doc && doc[key].Obj?
    ensures StringValue(key, doc) == Failure(NoValueFound)
  {
    SplitSingle(key);
  }

  /**
    An object at the first segment with more segments to come is searched for
    the second segment alone.
   */
  lemma StringValueDescends(key: string, doc: Doc, m: Doc)
    requires |Split(key)| >= 2
    requires Split(key)[0] in doc && doc[Split(key)[0]] == Obj(m)
    ensures StringValue(key, doc) == StringValue(Split(key)[1], m)
    ensures StringValue(key, doc) == LookupLast(Split(key)[1], m)
  {
    SplitSegmentsDotFree(key);
    StringValueSingle(Split(key)[1], m);
  }

  /** A number at the first segment always succeeds with its six-decimal rendering. */
  lemma StringValueNumberLeaf(key: string, doc: Doc, n: real)
    requires Split(key)[0] in doc && doc[Split(key)[0]] == Num(n)
    ensures StringValue(key, doc) == Success(FormatFixed6(n))
    ensures IsFixedSix(StringValue(key, doc).value)
  {
  }

  /**
    Arrays, booleans and null always fail, wherever the lookup stops at them;
    only strings and numbers ever become keys.
   */
  lemma StringValueLeafKinds(key: string, doc: Doc)
    ensures var keys := Split(key);
      keys[0] in doc && (doc[keys[0]].Arr? || doc[keys[0]].Bool? || doc[keys[0]].Null?)
      ==> StringValue(key, doc).Failure?
    ensures var keys := Split(key);
      StringValue(key, doc).Success? ==>
        keys[0] in doc &&
        (doc[keys[0]].Str? || doc[keys[0]].Num? ||
         (doc[keys[0]].Obj? && |keys| >= 2 && keys[1] in doc[keys[0]].fields &&
          (doc[keys[0]].fields[keys[1]].Str? || doc[keys[0]].fields[keys[1]].Num?)))
  {
    StringValueResolves(key, doc);
  }
}
