/**
 * The two JavaScript string built-ins the table listing is parsed with:
 * `String.prototype.trim` and `String.prototype.split` with the separator "\n".
 * Strings are sequences of characters; JavaScript's UTF-16 code units are not
 * distinguished from Unicode scalar values, which neither operation depends on
 * for the characters involved.
 */
module JsString {

  /** ECMAScript WhiteSpace and LineTerminator code points, which `trim` removes. */
  predicate IsWhitespace(c: char) {
    || c == '\t' || c == '\n' || c == '\U{000B}' || c == '\U{000C}' || c == '\r' || c == ' '
    || c == '\U{00A0}' || c == '\U{1680}' || ('\U{2000}' <= c <= '\U{200A}')
    || c == '\U{2028}' || c == '\U{2029}' || c == '\U{202F}' || c == '\U{205F}'
    || c == '\U{3000}' || c == '\U{FEFF}'
  }

  predicate AllWhitespace(s: string) {
    forall k :: 0 <= k < |s| ==> IsWhitespace(s[k])
  }

  /** Neither end of `s` is whitespace. */
  predicate IsTrimmed(s: string) {
    s == [] || (!IsWhitespace(s[0]) && !IsWhitespace(s[|s| - 1]))
  }

  /** The first position at or after `i` that does not hold whitespace, or |s|. */
  function SkipForward(s: string, i: nat): (r: nat)
    requires i <= |s|
    ensures i <= r <= |s|
    ensures forall k :: i <= k < r ==> IsWhitespace(s[k])
    ensures r == |s| || !IsWhitespace(s[r])
    decreases |s| - i
  {
    if i < |s| && IsWhitespace(s[i]) then SkipForward(s, i + 1) else i
  }

  /** The position just after the last non-whitespace character between `lo` and `j`, or `lo`. */
  function SkipBackward(s: string, lo: nat, j: nat): (r: nat)
    requires lo <= j <= |s|
    ensures lo <= r <= j
    ensures forall k :: r <= k < j ==> IsWhitespace(s[k])
    ensures r == lo || !IsWhitespace(s[r - 1])
    decreases j - lo
  {
    if lo < j && IsWhitespace(s[j - 1]) then SkipBackward(s, lo, j - 1) else j
  }

  /** `String.prototype.trim`: `s` without its leading and trailing whitespace. */
  function Trim(s: string): (r: string)
    ensures IsTrimmed(r)
  {
    var a := SkipForward(s, 0);
    s[a..SkipBackward(s, a, |s|)]
  }

  /** Trim removes exactly a whitespace prefix and a whitespace suffix. */
  lemma TrimParts(s: string) returns (lead: string, trail: string)
    ensures s == lead + Trim(s) + trail
    ensures AllWhitespace(lead) && AllWhitespace(trail)
    ensures Trim(s) == [] ==> AllWhitespace(s)
  {
    var a := SkipForward(s, 0);
    var b := SkipBackward(s, a, |s|);
    lead, trail := s[..a], s[b..];
    assert s == s[..a] + s[a..b] + s[b..];
  }

  /**
   * Trim is determined by its contract: a trimmed middle part between whitespace is
   * the trim, and so is the empty string for a string that is all whitespace.
   */
  lemma TrimUnique(s: string, lead: string, mid: string, trail: string)
    requires s == lead + mid + trail
    requires AllWhitespace(lead) && AllWhitespace(trail) && IsTrimmed(mid)
    requires mid == [] ==> AllWhitespace(s)
    ensures Trim(s) == mid
  {
    var a := SkipForward(s, 0);
    if mid == [] {
      assert a == |s|;
    } else {
      var p := |lead| + |mid|;
      assert s[|lead|] == mid[0];
      assert a == |lead|;
      assert s[p - 1] == mid[|mid| - 1];
      assert forall k :: p <= k < |s| ==> s[k] == trail[k - p];
      assert SkipBackward(s, a, |s|) == p;
      assert s[a..p] == mid;
    }
  }

  /** `trim` is idempotent. */
  lemma TrimIdempotent(s: string)
    ensures Trim(Trim(s)) == Trim(s)
  {
    var t := Trim(s);
    assert t == [] + t + [];
    TrimUnique(t, [], t, []);
  }

  /** Whitespace added around a string does not change its trim. */
  lemma TrimAround(lead: string, x: string, trail: string)
    requires AllWhitespace(lead) && AllWhitespace(trail)
    ensures Trim(lead + x + trail) == Trim(x)
  {
    var l, t := TrimParts(x);
    var m := Trim(x);
    var s := lead + x + trail;
    Regroup(lead, l, m, t, trail);
    AllWhitespaceAppend(lead, l);
    AllWhitespaceAppend(t, trail);
    if m == [] {
      AllWhitespaceAppend(lead + l, t + trail);
      assert s == (lead + l) + (t + trail);
    }
    TrimUnique(s, lead + l, m, t + trail);
  }

  lemma Regroup(a: string, b: string, c: string, d: string, e: string)
    ensures a + (b + c + d) + e == (a + b) + c + (d + e)
  {
  }

  lemma AllWhitespaceAppend(a: string, b: string)
    requires AllWhitespace(a) && AllWhitespace(b)
    ensures AllWhitespace(a + b)
  {
    assert forall k :: |a| <= k < |a + b| ==> (a + b)[k] == b[k - |a|];
  }

  /** Trimming a line keeps it free of newlines. */
  lemma TrimKeepsNewlineFree(s: string)
    requires '\n' !in s
    ensures '\n' !in Trim(s)
  {
    var lead, trail := TrimParts(s);
  }

  /** `String.prototype.split("\n")`: the pieces between the newlines, always at least one. */
  function Split(s: string): (r: seq<string>)
    ensures |r| >= 1
    ensures forall k :: 0 <= k < |r| ==> '\n' !in r[k]
  {
    if s == [] then [[]]
    else
      var rest := Split(s[1..]);
      if s[0] == '\n' then [[]] + rest
      else [[s[0]] + rest[0]] + rest[1..]
  }

  /** `Array.prototype.join("\n")`, the inverse of Split. */
  function Join(parts: seq<string>): string
  {
    if parts == [] then []
    else if |parts| == 1 then parts[0]
    else parts[0] + "\n" + Join(parts[1..])
  }

  /** Join undoes Split. */
  lemma {:induction false} JoinSplit(s: string)
    ensures Join(Split(s)) == s
  {
    if s != [] {
      JoinSplit(s[1..]);
      var rest := Split(s[1..]);
      if s[0] != '\n' && |rest| > 1 {
        assert Join(rest) == rest[0] + "\n" + Join(rest[1..]);
        assert ([s[0]] + rest[0]) + "\n" + Join(rest[1..]) == [s[0]] + Join(rest);
      }
      assert s == [s[0]] + s[1..];
    }
  }

  /** A string without newlines splits into itself. */
  lemma {:induction false} SplitLine(l: string)
    requires '\n' !in l
    ensures Split(l) == [l]
  {
    if l != [] {
      assert '\n' !in l[1..];
      SplitLine(l[1..]);
      assert [l[0]] + l[1..] == l;
    }
  }

  /** Splitting at a newline splits the two sides independently. */
  lemma {:induction false} SplitAtNewline(a: string, b: string)
    ensures Split(a + "\n" + b) == Split(a) + Split(b)
  {
    if a == [] {
      assert a + "\n" + b == "\n" + b;
      assert ("\n" + b)[1..] == b;
    } else {
      assert (a + "\n" + b)[1..] == a[1..] + "\n" + b;
      SplitAtNewline(a[1..], b);
    }
  }

  /** A character other than a newline extends the last piece. */
  lemma {:induction false} SplitAppendChar(a: string, c: char)
    requires c != '\n'
    ensures Split(a + [c]) == Split(a)[..|Split(a)| - 1] + [Split(a)[|Split(a)| - 1] + [c]]
  {
    if a == [] {
      var one: string := [c];
      assert a + [c] == one;
      assert one[1..] == [];
      assert Split(one[1..]) == [[]];
      assert one != [] && one[0] == c;
      var r := Split(one[1..]);
      assert r[0] == [] && r[1..] == [];
      assert [one[0]] + r[0] == one;
      assert Split(one) == [one] + [];
      assert Split(a) == [[]];
      assert Split(a)[..0] + [Split(a)[0] + [c]] == [[c]];
    } else {
      var s := a + [c];
      var rest := Split(a[1..]);
      var n := |rest|;
      assert s[0] == a[0] && s[1..] == a[1..] + [c];
      SplitAppendChar(a[1..], c);
      var ext := Split(a[1..] + [c]);
      assert ext == rest[..n - 1] + [rest[n - 1] + [c]];
      if a[0] == '\n' {
        assert Split(s) == [[]] + ext;
        assert Split(a) == [[]] + rest;
        assert ([[]] + rest)[..n] == [[]] + rest[..n - 1];
      } else {
        assert Split(s) == [[a[0]] + ext[0]] + ext[1..];
        assert Split(a) == [[a[0]] + rest[0]] + rest[1..];
        SplitNonNewlineHead(a[0], rest, ext, c);
      }
    }
  }

  lemma SplitNonNewlineHead(h: char, rest: seq<string>, ext: seq<string>, c: char)
    requires |rest| >= 1
    requires ext == rest[..|rest| - 1] + [rest[|rest| - 1] + [c]]
    ensures var p := [[h] + rest[0]] + rest[1..];
      [[h] + ext[0]] + ext[1..] == p[..|p| - 1] + [p[|p| - 1] + [c]]
  {
    var n := |rest|;
    var p := [[h] + rest[0]] + rest[1..];
    if n == 1 {
      assert ext == [rest[0] + [c]];
      assert [h] + (rest[0] + [c]) == ([h] + rest[0]) + [c];
    } else {
      assert ext[0] == rest[0];
      assert ext[1..] == rest[1..n - 1] + [rest[n - 1] + [c]];
      assert p[..n - 1] == [[h] + rest[0]] + rest[1..n - 1];
    }
  }

  /** Split undoes Join when no piece contains a newline. */
  lemma {:induction false} SplitJoin(parts: seq<string>)
    requires |parts| >= 1
    requires forall k :: 0 <= k < |parts| ==> '\n' !in parts[k]
    ensures Split(Join(parts)) == parts
  {
    if |parts| == 1 {
      SplitLine(parts[0]);
    } else {
      SplitAtNewline(parts[0], Join(parts[1..]));
      SplitLine(parts[0]);
      SplitJoin(parts[1..]);
    }
  }
}
