/**
 Kotlin string operations the download utility relies on: `String.split`
 with a single-character delimiter and `String.contains`. Strings are
 sequences of characters.
 */
module Text {

  /** Number of occurrences of `d` in `s`. */
  function Count(s: string, d: char): (n: nat)
    ensures n <= |s|
    ensures n == 0 <==> d !in s
  {
    if s == [] then 0
    else (if s[0] == d then 1 else 0) + Count(s[1..], d)
  }

  /**
   Kotlin's `s.split(d)`: the pieces between occurrences of `d`, left to
   right. Unlike Java's `String.split`, empty pieces are kept, including a
   trailing one, so there is always one more piece than there are delimiters.
   */
  function Split(s: string, d: char): (parts: seq<string>)
    ensures |parts| == Count(s, d) + 1
    ensures forall i :: 0 <= i < |parts| ==> d !in parts[i]
  {
    if s == [] then [[]]
    else
      var rest := Split(s[1..], d);
      if s[0] == d then [[]] + rest
      else [[s[0]] + rest[0]] + rest[1..]
  }

  /** The pieces glued back together with `d` between neighbours. */
  function Join(parts: seq<string>, d: char): string
  {
    if |parts| == 0 then []
    else if |parts| == 1 then parts[0]
    else parts[0] + [d] + Join(parts[1..], d)
  }

  /** Prefixing a character to the first piece prefixes it to the joined string. */
  lemma JoinConsFirst(c: char, parts: seq<string>, d: char)
    requires |parts| >= 1
    ensures Join([[c] + parts[0]] + parts[1..], d) == [c] + Join(parts, d)
  {
    var q := [[c] + parts[0]] + parts[1..];
    assert q[1..] == parts[1..];
  }

  /** Splitting loses nothing: joining the pieces gives back the input. */
  lemma {:induction false} JoinSplit(s: string, d: char)
    ensures Join(Split(s, d), d) == s
  {
    if s != [] {
      var rest := Split(s[1..], d);
      JoinSplit(s[1..], d);
      if s[0] == d {
        assert ([[]] + rest)[1..] == rest;
      } else {
        JoinConsFirst(s[0], rest, d);
        assert [rest[0]] + rest[1..] == rest;
      }
      assert [s[0]] + s[1..] == s;
    }
  }

  /** A string without the delimiter is one piece. */
  lemma {:induction false} SplitNoDelimiter(p: string, d: char)
    requires d !in p
    ensures Split(p, d) == [p]
  {
    if p != [] {
      SplitNoDelimiter(p[1..], d);
      assert [p[0]] + p[1..] == p;
    }
  }

  /** A delimiter-free prefix followed by the delimiter becomes the first piece. */
  lemma {:induction false} SplitAfterPrefix(p: string, rest: string, d: char)
    requires d !in p
    ensures Split(p + [d] + rest, d) == [p] + Split(rest, d)
  {
    var s := p + [d] + rest;
    if p == [] {
      assert s == [d] + rest;
      assert s[1..] == rest;
    } else {
      assert s[1..] == p[1..] + [d] + rest;
      SplitAfterPrefix(p[1..], rest, d);
      assert [p[0]] + p[1..] == p;
    }
  }

  /** Joining delimiter-free pieces and splitting again gives back the pieces. */
  lemma {:induction false} SplitJoin(parts: seq<string>, d: char)
    requires |parts| >= 1
    requires forall i :: 0 <= i < |parts| ==> d !in parts[i]
    ensures Split(Join(parts, d), d) == parts
  {
    if |parts| == 1 {
      SplitNoDelimiter(parts[0], d);
    } else {
      SplitJoin(parts[1..], d);
      SplitAfterPrefix(parts[0], Join(parts[1..], d), d);
      assert [parts[0]] + parts[1..] == parts;
    }
  }

  /** The case the download utility depends on: `"ns:leaf".split(':') == [ns, leaf]`. */
  lemma SplitPair(ns: string, leaf: string, d: char)
    requires d !in ns && d !in leaf
    ensures Split(ns + [d] + leaf, d) == [ns, leaf]
  {
    assert Join([ns, leaf], d) == ns + [d] + leaf;
    SplitJoin([ns, leaf], d);
  }

  /** `s` begins with `t`. */
  predicate StartsWith(s: string, t: string)
  {
    |t| <= |s| && s[..|t|] == t
  }

  /** Kotlin's `s.contains(t)`: `t` occurs somewhere in `s`. */
  function Contains(s: string, t: string): (r: bool)
    ensures r ==> |t| <= |s|
    ensures |t| == 0 ==> r
  {
    StartsWith(s, t) || (|s| > 0 && Contains(s[1..], t))
  }

  /** `t` occurs in `s` starting at position `i`. */
  predicate OccursAt(s: string, t: string, i: int)
  {
    0 <= i <= |s| - |t| && s[i..i + |t|] == t
  }

  /** `Contains` is the existence of a position at which `t` occurs. */
  lemma {:induction false} ContainsAt(s: string, t: string)
    ensures Contains(s, t) <==> exists i :: OccursAt(s, t, i)
  {
    if Contains(s, t) {
      if StartsWith(s, t) {
        assert OccursAt(s, t, 0);
      } else {
        ContainsAt(s[1..], t);
        var i :| OccursAt(s[1..], t, i);
        assert s[i + 1..i + 1 + |t|] == s[1..][i..i + |t|];
        assert OccursAt(s, t, i + 1);
      }
    }
    if exists i :: OccursAt(s, t, i) {
      var i :| OccursAt(s, t, i);
      if i == 0 {
        assert StartsWith(s, t);
      } else {
        assert s[1..][i - 1..i - 1 + |t|] == s[i..i + |t|];
        assert OccursAt(s[1..], t, i - 1);
        ContainsAt(s[1..], t);
      }
    }
  }

  /** Every character of an occurring string occurs in the host string. */
  lemma ContainsChar(s: string, t: string, c: char)
    requires Contains(s, t) && c in t
    ensures c in s
  {
    ContainsAt(s, t);
    var i :| OccursAt(s, t, i);
    var j :| 0 <= j < |t| && t[j] == c;
    assert s[i..i + |t|][j] == c;
  }
}
