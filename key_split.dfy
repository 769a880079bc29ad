/**
 * Python's `str.split("__")`: the string is cut at every occurrence of the
 * two-character separator, scanning from the left and never letting two
 * occurrences overlap. So "a___b" gives ["a", "_b"] and "a__" gives ["a", ""].
 */
module KeySplit {

  const Sep: string := "__"

  /** True if `s` holds the separator somewhere. */
  predicate ContainsSep(s: string)
  {
    exists i :: 0 <= i < |s| - 1 && s[i] == '_' && s[i + 1] == '_'
  }

  predicate EndsWithUnderscore(s: string)
  {
    |s| > 0 && s[|s| - 1] == '_'
  }

  /** `"__".join(parts)` */
  function Join(parts: seq<string>): string
    requires |parts| >= 1
  {
    if |parts| == 1 then parts[0] else parts[0] + Sep + Join(parts[1..])
  }

  /**
   * What a leftmost, non-overlapping split can produce: at least one part, no
   * part holds the separator, and no part but the last ends with '_' (else the
   * scan would have found a separator one character earlier).
   */
  predicate WellFormedParts(parts: seq<string>)
  {
    && |parts| >= 1
    && (forall i :: 0 <= i < |parts| ==> !ContainsSep(parts[i]))
    && (forall i :: 0 <= i < |parts| - 1 ==> !EndsWithUnderscore(parts[i]))
  }

  /** `s.split("__")`, one character at a time from the left. */
  function Split(s: string): (parts: seq<string>)
    ensures |parts| >= 1
    decreases |s|
  {
    if |s| < 2 then [s]
    else if s[0] == '_' && s[1] == '_' then [""] + Split(s[2..])
    else
      var rest := Split(s[1..]);
      [[s[0]] + rest[0]] + rest[1..]
  }

  /** Joining the parts back with the separator gives the original key. */
  lemma {:induction false} JoinSplit(s: string)
    ensures Join(Split(s)) == s
    decreases |s|
  {
    if |s| < 2 {
    } else if s[0] == '_' && s[1] == '_' {
      JoinSplit(s[2..]);
      assert s == Sep + s[2..];
    } else {
      var rest := Split(s[1..]);
      JoinSplit(s[1..]);
      if |rest| == 1 {
        assert Split(s) == [[s[0]] + rest[0]];
      } else {
        var parts := Split(s);
        assert parts[1..] == rest[1..];
        assert Join(rest) == rest[0] + Sep + Join(rest[1..]);
        assert s == [s[0]] + s[1..];
      }
    }
  }

  /** The parts are exactly what a leftmost, non-overlapping scan can give. */
  lemma {:induction false} SplitWellFormed(s: string)
    ensures WellFormedParts(Split(s))
    decreases |s|
  {
    var parts := Split(s);
    if |s| < 2 {
    } else if s[0] == '_' && s[1] == '_' {
      SplitWellFormed(s[2..]);
      var rest := Split(s[2..]);
      assert parts == [""] + rest;
      forall i | 0 <= i < |parts| ensures !ContainsSep(parts[i]) {
        if i > 0 { assert parts[i] == rest[i - 1]; }
      }
      forall i | 0 <= i < |parts| - 1 ensures !EndsWithUnderscore(parts[i]) {
        if i > 0 { assert parts[i] == rest[i - 1]; }
      }
    } else {
      SplitWellFormed(s[1..]);
      JoinSplit(s[1..]);
      var rest := Split(s[1..]);
      var head := [s[0]] + rest[0];
      assert parts[0] == head && parts[1..] == rest[1..];
      if |rest| == 1 {
        assert s[1..] == rest[0];
      } else {
        assert s[1..] == rest[0] + Sep + Join(rest[1..]);
      }
      forall i | 0 <= i < |head| - 1 ensures !(head[i] == '_' && head[i + 1] == '_') {
        if i > 0 {
          assert head[i] == rest[0][i - 1] && head[i + 1] == rest[0][i];
        } else {
          assert head[i] == s[0] && head[i + 1] == s[1];
        }
      }
      if |rest| > 1 && rest[0] != [] {
        assert head[|head| - 1] == rest[0][|rest[0]| - 1];
      }
      forall i | 0 <= i < |parts| ensures !ContainsSep(parts[i]) {
        if i > 0 { assert parts[i] == rest[i]; }
      }
      forall i | 0 <= i < |parts| - 1 ensures !EndsWithUnderscore(parts[i]) {
        if i > 0 { assert parts[i] == rest[i]; }
      }
    }
  }

  /** Splitting a separator-free part followed by the separator peels that part off. */
  lemma {:induction false} SplitPeel(p: string, t: string)
    requires !ContainsSep(p) && !EndsWithUnderscore(p)
    ensures Split(p + Sep + t) == [p] + Split(t)
    decreases |p|
  {
    var s := p + Sep + t;
    if p == [] {
      assert s == Sep + t;
      assert s[2..] == t;
    } else {
      var p' := p[1..];
      assert s[1..] == p' + Sep + t;
      forall i | 0 <= i < |p'| - 1 ensures !(p'[i] == '_' && p'[i + 1] == '_') {
        assert p'[i] == p[i + 1] && p'[i + 1] == p[i + 2];
      }
      if p' != [] {
        assert p'[|p'| - 1] == p[|p| - 1];
        assert s[0] == p[0] && s[1] == p[1];
      } else {
        assert s[0] == p[0] && s[1] == '_';
      }
      SplitPeel(p', t);
      assert Split(s) == [[s[0]] + p'] + Split(t);
      assert [s[0]] + p' == p;
    }
  }

  /** A key without the separator is not cut at all. */
  lemma {:induction false} SplitNoSep(s: string)
    requires !ContainsSep(s)
    ensures Split(s) == [s]
    decreases |s|
  {
    if |s| >= 2 {
      assert !(s[0] == '_' && s[1] == '_');
      forall i | 0 <= i < |s[1..]| - 1 ensures !(s[1..][i] == '_' && s[1..][i + 1] == '_') {
        assert s[1..][i] == s[i + 1] && s[1..][i + 1] == s[i + 2];
      }
      SplitNoSep(s[1..]);
      assert [s[0]] + s[1..] == s;
    }
  }

  /**
   * Uniqueness: any well-formed list of parts is what splitting its join gives,
   * so Split is the one leftmost, non-overlapping split.
   */
  lemma {:induction false} SplitJoin(parts: seq<string>)
    requires WellFormedParts(parts)
    ensures Split(Join(parts)) == parts
    decreases |parts|
  {
    if |parts| == 1 {
      SplitNoSep(parts[0]);
    } else {
      var tail := parts[1..];
      forall i | 0 <= i < |tail| ensures tail[i] == parts[i + 1] { }
      SplitJoin(tail);
      SplitPeel(parts[0], Join(tail));
      assert [parts[0]] + tail == parts;
    }
  }

  /** A key is cut into one part exactly when it holds no separator. */
  lemma {:induction false} SplitSingleIff(s: string)
    ensures |Split(s)| == 1 <==> !ContainsSep(s)
  {
    JoinSplit(s);
    SplitWellFormed(s);
    if !ContainsSep(s) {
      SplitNoSep(s);
    }
  }

  /** Putting one character in front of a string adds at most one part. */
  lemma {:induction false} SplitCountCons(c: char, s: string)
    ensures |Split(s)| <= |Split([c] + s)| <= |Split(s)| + 1
    decreases |s|
  {
    var cs := [c] + s;
    assert cs[1..] == s;
    if s == [] {
    } else if c == '_' && s[0] == '_' {
      assert cs[2..] == s[1..];
      SplitCountCons(s[0], s[1..]);
      assert [s[0]] + s[1..] == s;
    }
  }

  /** Putting a string in front never removes parts. */
  lemma {:induction false} SplitCountPrefix(x: string, y: string)
    ensures |Split(y)| <= |Split(x + y)|
    decreases |x|
  {
    if x == [] {
      assert x + y == y;
    } else {
      SplitCountPrefix(x[1..], y);
      SplitCountCons(x[0], x[1..] + y);
      assert x + y == [x[0]] + (x[1..] + y);
    }
  }

  /** Two separators anywhere in a key give at least three parts. */
  lemma TwoSepsThreeParts(a: string, b: string, c: string)
    ensures |Split(a + Sep + b + Sep + c)| >= 3
  {
    var s := a + Sep + b + Sep + c;
    assert s == a + (Sep + (b + Sep + c));
    SplitCountPrefix(a, Sep + (b + Sep + c));
    assert (Sep + (b + Sep + c))[2..] == b + Sep + c;
    assert b + Sep + c == b + (Sep + c);
    SplitCountPrefix(b, Sep + c);
    assert (Sep + c)[2..] == c;
  }
}
