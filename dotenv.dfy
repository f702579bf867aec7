/**
 * The connection string extraction of bin/sync.js: the regular expression
 * /DATABASE_URL=["']?([^"'\n]+)["']?/ applied with `String.prototype.match`,
 * whose result is the first capture group of the leftmost match.
 *
 * `Accepts` states when the pattern can match, independently of how a match is
 * searched for; `ExtractUrl` scans for it. The trailing `["']?` can always match
 * the empty string, so it never constrains a match nor changes the capture.
 * JavaScript's backtracking tries the positions from left to right, the
 * optional opening quote before its absence, and the longest group first, so
 * the reported group is that of the leftmost position and, there, the longest.
 */
module DotEnv {
  import opened Wrappers

  const Key: string := "DATABASE_URL="

  predicate IsQuote(c: char) {
    c == '"' || c == '\''
  }

  /** The characters of the class [^"'\n]. */
  predicate IsValueChar(c: char) {
    !IsQuote(c) && c != '\n'
  }

  predicate AllValueChars(s: string) {
    forall k :: 0 <= k < |s| ==> IsValueChar(s[k])
  }

  /** The literal `DATABASE_URL=` occurs in `s` at position `i`. */
  predicate KeyAt(s: string, i: nat) {
    i + |Key| <= |s| && s[i..i + |Key|] == Key
  }

  /**
   * The pattern matches `s` at position `i`, with `q` characters (0 or 1) taken by
   * the optional opening quote and a group of `m` characters.
   */
  predicate Accepts(s: string, i: nat, q: nat, m: nat) {
    && KeyAt(s, i)
    && q <= 1
    && 0 < m
    && i + |Key| + q + m <= |s|
    && (q == 1 ==> IsQuote(s[i + |Key|]))
    && forall k :: i + |Key| + q <= k < i + |Key| + q + m ==> IsValueChar(s[k])
  }

  /** The group of the match described by `i`, `q` and `m`. */
  function Capture(s: string, i: nat, q: nat, m: nat): string
    requires Accepts(s, i, q, m)
  {
    s[i + |Key| + q..i + |Key| + q + m]
  }

  /** No match starting at or after `from` lies left of `i`, nor, at `i`, has a longer group. */
  ghost predicate LeftmostLongest(s: string, from: nat, i: nat, m: nat) {
    forall i': nat, q': nat, m': nat :: from <= i' && Accepts(s, i', q', m') ==> i <= i' && (i' == i ==> m' <= m)
  }

  /** The length of the longest run of [^"'\n] characters starting at `j`. */
  function RunLength(s: string, j: nat): (n: nat)
    requires j <= |s|
    ensures j + n <= |s|
    ensures forall k :: j <= k < j + n ==> IsValueChar(s[k])
    ensures j + n == |s| || !IsValueChar(s[j + n])
    decreases |s| - j
  {
    if j < |s| && IsValueChar(s[j]) then 1 + RunLength(s, j + 1) else 0
  }

  /** Where the group starts when the key is at `i`: after the opening quote if there is one. */
  function GroupStart(s: string, i: nat): nat
    requires KeyAt(s, i)
  {
    var j := i + |Key|;
    if j < |s| && IsQuote(s[j]) then j + 1 else j
  }

  /** The pattern fires at `i`: the key is there and the group can take at least one character. */
  predicate FiresAt(s: string, i: nat) {
    KeyAt(s, i) && GroupStart(s, i) < |s| && IsValueChar(s[GroupStart(s, i)])
  }

  /** The group of the leftmost match starting at or after `i`. */
  function MatchFrom(s: string, i: nat): (r: Option<string>)
    requires i <= |s|
    ensures r.Some? ==> r.value != [] && AllValueChars(r.value)
    decreases |s| - i
  {
    if i + |Key| > |s| then None
    else if FiresAt(s, i) then
      var g := GroupStart(s, i);
      Some(s[g..g + RunLength(s, g)])
    else MatchFrom(s, i + 1)
  }

  /**
   * `content.match(/DATABASE_URL=["']?([^"'\n]+)["']?/)?.[1]`: the value assigned to
   * DATABASE_URL, found anywhere in the text.
   */
  function ExtractUrl(content: string): (r: Option<string>)
    ensures r.Some? ==> r.value != [] && AllValueChars(r.value)
  {
    MatchFrom(content, 0)
  }

  /** At one position, the scan's test agrees with the pattern, and its group is the longest. */
  lemma MatchesAtPosition(s: string, i: nat)
    ensures FiresAt(s, i) ==>
      var g := GroupStart(s, i);
      && Accepts(s, i, g - i - |Key|, RunLength(s, g))
      && forall q: nat, m: nat :: Accepts(s, i, q, m) ==> q == g - i - |Key| && m <= RunLength(s, g)
    ensures !FiresAt(s, i) ==> forall q: nat, m: nat :: !Accepts(s, i, q, m)
  {
    if FiresAt(s, i) {
      var g := GroupStart(s, i);
      var n := RunLength(s, g);
      forall q: nat, m: nat | Accepts(s, i, q, m)
        ensures q == g - i - |Key| && m <= n
      {
      }
    } else {
      forall q: nat, m: nat | Accepts(s, i, q, m)
        ensures false
      {
      }
    }
  }

  /** The scan from `i` returns the group of the leftmost-longest match at or after `i`, if any. */
  lemma {:induction false} MatchFromIsLeftmostLongest(s: string, i: nat)
    requires i <= |s|
    ensures MatchFrom(s, i).None? <==> forall k: nat, q: nat, m: nat :: i <= k ==> !Accepts(s, k, q, m)
    ensures MatchFrom(s, i).Some? ==>
      exists k: nat, q: nat, m: nat :: i <= k && Accepts(s, k, q, m)
        && MatchFrom(s, i).value == Capture(s, k, q, m)
        && LeftmostLongest(s, i, k, m)
    decreases |s| - i
  {
    MatchesAtPosition(s, i);
    if i + |Key| > |s| {
      forall k: nat, q: nat, m: nat | i <= k
        ensures !Accepts(s, k, q, m)
      {
      }
    } else if FiresAt(s, i) {
      var g := GroupStart(s, i);
      var q, m := g - i - |Key|, RunLength(s, g);
      assert Accepts(s, i, q, m);
      assert MatchFrom(s, i).value == Capture(s, i, q, m);
      assert LeftmostLongest(s, i, i, m);
    } else {
      MatchFromIsLeftmostLongest(s, i + 1);
      forall k: nat, q: nat, m: nat | i <= k && Accepts(s, k, q, m)
        ensures i + 1 <= k
      {
      }
      if MatchFrom(s, i + 1).Some? {
        var k: nat, q: nat, m: nat :| i + 1 <= k && Accepts(s, k, q, m)
          && MatchFrom(s, i + 1).value == Capture(s, k, q, m)
          && LeftmostLongest(s, i + 1, k, m);
        assert LeftmostLongest(s, i, k, m);
      }
    }
  }

  /**
   * ExtractUrl returns the group of the leftmost match, longest at that position,
   * and returns None exactly when the pattern matches nowhere.
   */
  lemma ExtractUrlIsLeftmostLongest(content: string)
    ensures ExtractUrl(content).None? <==> forall i: nat, q: nat, m: nat :: !Accepts(content, i, q, m)
    ensures ExtractUrl(content).Some? ==>
      exists i: nat, q: nat, m: nat :: Accepts(content, i, q, m)
        && ExtractUrl(content).value == Capture(content, i, q, m)
        && LeftmostLongest(content, 0, i, m)
  {
    MatchFromIsLeftmostLongest(content, 0);
  }

  /**
   * `DATABASE_URL=x`, `DATABASE_URL="x"` and `DATABASE_URL='x'` all give `x`, whatever
   * follows the value as long as it does not continue it, and whatever precedes the
   * key as long as no earlier occurrence of the key fires there.
   */
  lemma ExtractAssignment(prefix: string, quote: string, x: string, rest: string)
    requires quote == [] || quote == "\"" || quote == "'"
    requires x != [] && AllValueChars(x)
    requires rest == [] || !IsValueChar(rest[0])
    requires forall k :: 0 <= k < |prefix| ==> !FiresAt(prefix + Key + quote + x + rest, k)
    ensures ExtractUrl(prefix + Key + quote + x + rest) == Some(x)
  {
    var s := prefix + Key + quote + x + rest;
    var p := |prefix|;
    MatchAfterPrefix(s, p);
    assert s[p..p + |Key|] == Key;
    assert KeyAt(s, p);
    var g := GroupStart(s, p);
    assert g == p + |Key| + |quote| by {
      if quote == [] {
        assert s[p + |Key|] == x[0];
      }
    }
    assert s[g..g + |x|] == x;
    assert s[g + |x|..] == rest;
  }

  /** The scan passes over positions where the pattern does not fire. */
  lemma {:induction false} MatchAfterPrefix(s: string, p: nat)
    requires p <= |s|
    requires forall k :: 0 <= k < p ==> !FiresAt(s, k)
    ensures ExtractUrl(s) == MatchFrom(s, p)
  {
    var i := 0;
    while i < p
      invariant i <= p
      invariant MatchFrom(s, 0) == MatchFrom(s, i)
    {
      assert !FiresAt(s, i);
      i := i + 1;
    }
  }

  /** The key is matched as a bare substring: inside a longer variable name it still fires. */
  lemma FiresInsideLongerName()
    ensures ExtractUrl("MY_" + Key + "secret") == Some("secret")
  {
    var s := "MY_" + Key + "secret";
    forall k | 0 <= k < 3
      ensures !FiresAt(s, k)
    {
      assert s[k] != Key[0];
    }
    assert s == "MY_" + Key + [] + "secret" + [];
    ExtractAssignment("MY_", [], "secret", []);
  }

  /** A commented-out assignment still fires. */
  lemma FiresInsideComment()
    ensures ExtractUrl("# " + Key + "old\n") == Some("old")
  {
    var s := "# " + Key + "old\n";
    forall k | 0 <= k < 2
      ensures !FiresAt(s, k)
    {
      assert s[k] != Key[0];
    }
    assert s == "# " + Key + [] + "old" + "\n";
    ExtractAssignment("# ", [], "old", "\n");
  }

  /** On a file with CRLF line ends, the carriage return stays in the value. */
  lemma KeepsCarriageReturn()
    ensures ExtractUrl(Key + "db\r\n") == Some("db\r")
  {
    assert Key + "db\r\n" == [] + Key + [] + "db\r" + "\n";
    ExtractAssignment([], [], "db\r", "\n");
  }

  /**
   * An earlier key whose group cannot start, such as an empty quoted value, is passed
   * over, and the scan goes on to the next assignment.
   */
  lemma SkipsEmptyQuotedValue()
    ensures ExtractUrl(Key + "\"\"\n" + Key + "x") == Some("x")
  {
    var prefix := Key + "\"\"\n";
    var s := prefix + Key + "x";
    assert s == prefix + Key + [] + "x" + [];
    assert s[|Key|] == '"' && s[|Key| + 1] == '"';
    forall k | 0 <= k < |prefix|
      ensures !FiresAt(s, k)
    {
      if k == 0 {
        assert GroupStart(s, 0) == |Key| + 1;
      } else {
        assert s[k] != Key[0];
      }
    }
    ExtractAssignment(prefix, [], "x", []);
  }
}
