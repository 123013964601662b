/**
  The dot-notation key as `strings.Split(key, ".")` sees it: the list of
  segments between the dots. Go strings are bytes; `.` is the ASCII byte 0x2E,
  which never occurs inside a multi-byte UTF-8 sequence, so for a valid UTF-8
  key splitting on the character is the same as splitting on the byte.
 */
module DotPath {

  /** The segments joined back with a dot between each two. */
  function Join(segs: seq<string>): string
    requires |segs| >= 1
  {
    if |segs| == 1 then segs[0] else segs[0] + "." + Join(segs[1..])
  }

  /**
    `strings.Split(key, ".")`. It never yields the empty list: the empty key
    gives one empty segment.
   */
  function Split(key: string): (segs: seq<string>)
    ensures |segs| >= 1
    decreases |key|
  {
    if |key| == 0 then [""]
    else
      var rest := Split(key[1..]);
      if key[0] == '.' then [""] + rest
      else [[key[0]] + rest[0]] + rest[1..]
  }

  /** One step of `Split` on a non-empty key. */
  lemma SplitUnfold(key: string)
    requires |key| > 0
    ensures key[0] == '.' ==> Split(key) == [""] + Split(key[1..])
    ensures key[0] != '.' ==> Split(key) == [[key[0]] + Split(key[1..])[0]] + Split(key[1..])[1..]
  {
  }

  /** No segment contains a dot. */
  lemma {:induction false} SplitSegmentsDotFree(key: string)
    ensures forall i :: 0 <= i < |Split(key)| ==> '.' !in Split(key)[i]
    decreases |key|
  {
    if |key| > 0 {
      SplitSegmentsDotFree(key[1..]);
      var rest := Split(key[1..]);
      SplitUnfold(key);
      if key[0] != '.' {
        assert '.' !in [key[0]] + rest[0];
      }
    }
  }

  /** Joining the segments with dots gives back the key. */
  lemma {:induction false} JoinSplit(key: string)
    ensures Join(Split(key)) == key
    decreases |key|
  {
    if |key| > 0 {
      JoinSplit(key[1..]);
      var rest := Split(key[1..]);
      SplitUnfold(key);
      assert key == [key[0]] + key[1..];
      if key[0] == '.' {
        assert ([""] + rest)[1..] == rest;
      } else {
        var segs := [[key[0]] + rest[0]] + rest[1..];
        assert segs[1..] == rest[1..];
        if |rest| > 1 {
          assert Join(rest) == rest[0] + "." + Join(rest[1..]);
          assert Join(segs) == [key[0]] + rest[0] + "." + Join(rest[1..]);
        }
      }
    }
  }

  /** A key without a dot is its own single segment, and only such a key is. */
  lemma SplitSingle(key: string)
    ensures |Split(key)| == 1 <==> '.' !in key
    ensures '.' !in key ==> Split(key) == [key]
  {
    JoinSplit(key);
    SplitSegmentsDotFree(key);
    if '.' !in key {
      SplitDotFreePrefix(key, "");
      assert key + "" == key;
    }
  }

  /** Splitting a dot-free prefix glues it onto the first segment of the rest. */
  lemma {:induction false} SplitDotFreePrefix(s: string, t: string)
    requires '.' !in s
    ensures Split(s + t) == [s + Split(t)[0]] + Split(t)[1..]
    decreases |s|
  {
    var st := Split(t);
    if |s| == 0 {
      assert s + t == t;
      assert s + st[0] == st[0];
      assert st == [st[0]] + st[1..];
    } else {
      var key := s + t;
      assert key[0] == s[0] && key[0] != '.';
      assert key[1..] == s[1..] + t;
      SplitDotFreePrefix(s[1..], t);
      SplitUnfold(key);
      var rest := Split(key[1..]);
      assert rest[0] == s[1..] + st[0] && rest[1..] == st[1..];
      assert [key[0]] + rest[0] == s + st[0] by {
        assert s == [s[0]] + s[1..];
      }
    }
  }

  /** Round trip: splitting the join of dot-free segments gives the segments back. */
  lemma {:induction false} SplitJoin(segs: seq<string>)
    requires |segs| >= 1
    requires forall i :: 0 <= i < |segs| ==> '.' !in segs[i]
    ensures Split(Join(segs)) == segs
    decreases |segs|
  {
    if |segs| > 1 {
      var u := Join(segs[1..]);
      SplitJoin(segs[1..]);
      assert segs[0] + "." + u == segs[0] + ("." + u);
      SplitDotFreePrefix(segs[0], "." + u);
      SplitUnfold("." + u);
      assert ("." + u)[1..] == u;
      assert segs[0] + "" == segs[0];
      assert segs == [segs[0]] + segs[1..];
    } else {
      SplitSingle(segs[0]);
    }
  }
}
