/**
 * `introspectSchema` of bin/sync.js: list the public tables, stop with a fixed
 * message when there are none, otherwise start from the compact table listing and
 * append a newline and the description of each table, in the order listed. Any
 * failing client invocation aborts the whole introspection with one fixed error.
 */
module Introspect {
  import opened Wrappers
  import opened Io
  import opened JsString

  const NoTables: string := "No tables found in public schema."
  const IntrospectFailed: string := "Failed to introspect database. Is psql installed and DATABASE_URL correct?"

  /** `lines.map(t => t.trim())`. */
  function TrimAll(lines: seq<string>): (r: seq<string>)
    ensures |r| == |lines|
    ensures forall k :: 0 <= k < |r| ==> r[k] == Trim(lines[k])
  {
    seq(|lines|, k requires 0 <= k < |lines| => Trim(lines[k]))
  }

  lemma TrimAllAppend(a: seq<string>, b: seq<string>)
    ensures TrimAll(a + b) == TrimAll(a) + TrimAll(b)
  {
    assert forall k :: 0 <= k < |a| ==> (a + b)[k] == a[k];
    assert forall k :: |a| <= k < |a| + |b| ==> (a + b)[k] == b[k - |a|];
  }

  lemma TrimAllOne(x: string)
    ensures TrimAll([x]) == [Trim(x)]
  {
  }

  /** `.filter(Boolean)` on strings: drop the empty ones, keep the order of the others. */
  function NonEmpty(lines: seq<string>): (r: seq<string>)
    ensures |r| <= |lines|
    ensures forall k :: 0 <= k < |r| ==> r[k] != []
  {
    if lines == [] then []
    else (if lines[0] == [] then [] else [lines[0]]) + NonEmpty(lines[1..])
  }

  /** Every kept line is one of the input lines. */
  lemma {:induction false} NonEmptyKeepsLines(lines: seq<string>)
    ensures forall k :: 0 <= k < |NonEmpty(lines)| ==> NonEmpty(lines)[k] in lines
  {
    if lines != [] {
      NonEmptyKeepsLines(lines[1..]);
    }
  }

  /** The lines of `split("\n")` after `map(t => t.trim())` are trimmed and newline-free. */
  lemma TrimmedLines(s: string)
    ensures forall k :: 0 <= k < |TrimAll(Split(s))| ==>
      IsTrimmed(TrimAll(Split(s))[k]) && '\n' !in TrimAll(Split(s))[k]
  {
    var ls := Split(s);
    forall k | 0 <= k < |ls|
      ensures '\n' !in Trim(ls[k])
    {
      TrimKeepsNewlineFree(ls[k]);
    }
  }

  /** `tablesResult.trim().split("\n").map(t => t.trim()).filter(Boolean)`. */
  function ParseTables(output: string): (tables: seq<string>)
    ensures forall k :: 0 <= k < |tables| ==> tables[k] != [] && IsTrimmed(tables[k]) && '\n' !in tables[k]
  {
    TrimmedLines(Trim(output));
    NonEmptyKeepsLines(TrimAll(Split(Trim(output))));
    NonEmpty(TrimAll(Split(Trim(output))))
  }

  /** The same pipeline without the first `trim`. */
  function CleanLines(output: string): seq<string>
  {
    NonEmpty(TrimAll(Split(output)))
  }

  lemma {:induction false} NonEmptyAppend(a: seq<string>, b: seq<string>)
    ensures NonEmpty(a + b) == NonEmpty(a) + NonEmpty(b)
  {
    if a == [] {
      assert a + b == b;
    } else {
      assert (a + b)[1..] == a[1..] + b;
      NonEmptyAppend(a[1..], b);
    }
  }

  /** A leading whitespace character changes no trimmed non-blank line. */
  lemma CleanConsWhitespace(c: char, s: string)
    requires IsWhitespace(c)
    ensures CleanLines([c] + s) == CleanLines(s)
  {
    var rest := Split(s);
    assert ([c] + s)[1..] == s;
    if c == '\n' {
      assert Split([c] + s) == [[]] + rest;
      TrimAllAppend([[]], rest);
      TrimAllOne([]);
      NonEmptyAppend([Trim([])], TrimAll(rest));
    } else {
      var head := [c] + rest[0];
      assert Split([c] + s) == [head] + rest[1..];
      TrimAround([c], rest[0], []);
      assert [c] + rest[0] + [] == head;
      TrimAllAppend([head], rest[1..]);
      TrimAllOne(head);
      assert rest == [rest[0]] + rest[1..];
      TrimAllAppend([rest[0]], rest[1..]);
      TrimAllOne(rest[0]);
    }
  }

  lemma {:induction false} CleanLeadingWhitespace(w: string, s: string)
    requires AllWhitespace(w)
    ensures CleanLines(w + s) == CleanLines(s)
  {
    if w != [] {
      assert w + s == [w[0]] + (w[1..] + s);
      CleanConsWhitespace(w[0], w[1..] + s);
      CleanLeadingWhitespace(w[1..], s);
    } else {
      assert w + s == s;
    }
  }

  /** A trailing whitespace character changes no trimmed non-blank line. */
  lemma CleanSnocWhitespace(s: string, c: char)
    requires IsWhitespace(c)
    ensures CleanLines(s + [c]) == CleanLines(s)
  {
    if c == '\n' {
      CleanSnocNewline(s);
    } else {
      CleanSnocBlank(s, c);
    }
  }

  lemma CleanSnocNewline(s: string)
    ensures CleanLines(s + ['\n']) == CleanLines(s)
  {
    var ls := Split(s);
    assert s + ['\n'] == s + "\n" + [];
    SplitAtNewline(s, []);
    assert Split(s + ['\n']) == ls + [[]];
    TrimAllAppend(ls, [[]]);
    TrimAllOne([]);
    NonEmptyAppend(TrimAll(ls), [Trim([])]);
  }

  lemma CleanSnocBlank(s: string, c: char)
    requires IsWhitespace(c) && c != '\n'
    ensures CleanLines(s + [c]) == CleanLines(s)
  {
    SplitAppendChar(s, c);
    TrimAllBlankEnd(Split(s), c);
  }

  /** White space appended to the last line does not change the trimmed lines. */
  lemma TrimAllBlankEnd(ls: seq<string>, c: char)
    requires |ls| >= 1 && IsWhitespace(c)
    ensures TrimAll(ls[..|ls| - 1] + [ls[|ls| - 1] + [c]]) == TrimAll(ls)
  {
    var n := |ls|;
    var last := ls[n - 1] + [c];
    assert Trim(last) == Trim(ls[n - 1]) by {
      TrimAround([], ls[n - 1], [c]);
      assert [] + ls[n - 1] + [c] == last;
    }
    TrimAllAppend(ls[..n - 1], [last]);
    TrimAllOne(last);
    assert ls == ls[..n - 1] + [ls[n - 1]];
    TrimAllAppend(ls[..n - 1], [ls[n - 1]]);
    TrimAllOne(ls[n - 1]);
  }

  lemma {:induction false} CleanTrailingWhitespace(s: string, w: string)
    requires AllWhitespace(w)
    ensures CleanLines(s + w) == CleanLines(s)
    decreases |w|
  {
    if w != [] {
      var n := |w|;
      assert s + w == (s + w[..n - 1]) + [w[n - 1]];
      CleanSnocWhitespace(s + w[..n - 1], w[n - 1]);
      CleanTrailingWhitespace(s, w[..n - 1]);
    } else {
      assert s + w == s;
    }
  }

  /** The first `trim` of the pipeline makes no difference to its result. */
  lemma OuterTrimRedundant(output: string)
    ensures ParseTables(output) == CleanLines(output)
  {
    var lead, trail := TrimParts(output);
    var t := Trim(output);
    assert CleanLines(output) == CleanLines(t + trail) by {
      assert output == lead + (t + trail);
      CleanLeadingWhitespace(lead, t + trail);
    }
    assert CleanLines(t + trail) == CleanLines(t) by {
      CleanTrailingWhitespace(t, trail);
    }
  }

  /**
   * Table names keep the order of the lines they came from: the names of two blocks
   * of lines joined by a newline are the names of the first block, then those of the
   * second.
   */
  lemma ParseTablesAppend(a: string, b: string)
    ensures ParseTables(a + "\n" + b) == ParseTables(a) + ParseTables(b)
  {
    OuterTrimRedundant(a + "\n" + b);
    OuterTrimRedundant(a);
    OuterTrimRedundant(b);
    CleanLinesAppend(a, b);
  }

  lemma CleanLinesAppend(a: string, b: string)
    ensures CleanLines(a + "\n" + b) == CleanLines(a) + CleanLines(b)
  {
    var la, lb := Split(a), Split(b);
    SplitAtNewline(a, b);
    TrimAllAppend(la, lb);
    NonEmptyAppend(TrimAll(la), TrimAll(lb));
  }

  /** A single line gives its trimmed self as a table name, or nothing when it is blank. */
  lemma ParseTablesLine(line: string)
    requires '\n' !in line
    ensures ParseTables(line) == if Trim(line) == [] then [] else [Trim(line)]
  {
    OuterTrimRedundant(line);
    SplitLine(line);
    TrimAllOne(line);
    assert NonEmpty([Trim(line)]) == (if Trim(line) == [] then [] else [Trim(line)]) + NonEmpty([]);
  }

  /** `"\n" + d` for each description `d`, in order. */
  function Sections(descriptions: seq<string>): (r: string)
    ensures descriptions == [] <==> r == []
    ensures |r| >= |descriptions|
    ensures descriptions != [] ==> r[0] == '\n'
  {
    if descriptions == [] then []
    else Sections(descriptions[..|descriptions| - 1]) + "\n" + descriptions[|descriptions| - 1]
  }

  /** The sections of two lists of descriptions are those of the first, then those of the second. */
  lemma {:induction false} SectionsAppend(a: seq<string>, b: seq<string>)
    ensures Sections(a + b) == Sections(a) + Sections(b)
    decreases |b|
  {
    if b == [] {
      assert a + b == a;
    } else {
      var n := |b|;
      assert (a + b)[..|a + b| - 1] == a + b[..n - 1];
      SectionsAppend(a, b[..n - 1]);
    }
  }

  lemma SectionsOne(d: string)
    ensures Sections([d]) == "\n" + d
  {
    assert [d][..0] == [];
  }

  /** The description queries of the tables, in order. */
  function DescribeQueries(tables: seq<string>): (r: seq<Query>)
    ensures |r| == |tables|
    ensures forall k :: 0 <= k < |r| ==> r[k] == Describe(tables[k])
  {
    seq(|tables|, k requires 0 <= k < |tables| => Describe(tables[k]))
  }

  /** Every one of the tables is described successfully. */
  predicate AllDescribed(conn: string, psql: Psql, tables: seq<string>) {
    forall k :: 0 <= k < |tables| ==> psql(conn, Describe(tables[k])).Some?
  }

  /** The descriptions of the tables, in order. */
  function Descriptions(conn: string, psql: Psql, tables: seq<string>): (r: seq<string>)
    requires AllDescribed(conn, psql, tables)
    ensures |r| == |tables|
    ensures forall k :: 0 <= k < |r| ==> psql(conn, Describe(tables[k])) == Some(r[k])
  {
    seq(|tables|, k requires 0 <= k < |tables| => psql(conn, Describe(tables[k])).value)
  }

  /** The index of the first table whose description fails, or the number of tables. */
  function FirstFailure(conn: string, psql: Psql, tables: seq<string>): (n: nat)
    ensures n <= |tables|
    ensures AllDescribed(conn, psql, tables[..n])
    ensures n < |tables| ==> psql(conn, Describe(tables[n])).None?
    ensures n == |tables| ==> AllDescribed(conn, psql, tables)
  {
    if tables == [] then 0
    else if psql(conn, Describe(tables[0])).None? then 0
    else
      var n := FirstFailure(conn, psql, tables[1..]);
      assert tables[..n + 1] == [tables[0]] + tables[1..][..n];
      1 + n
  }

  /** What introspection yields: the schema text, or the fixed error. */
  function Introspection(conn: string, psql: Psql): (r: Outcome<string>)
    ensures r.Fail? ==> r == Fail(IntrospectFailed)
  {
    match psql(conn, TableNames)
    case None => Fail(IntrospectFailed)
    case Some(names) =>
      var tables := ParseTables(names);
      if tables == [] then Ok(NoTables)
      else match psql(conn, TableList)
        case None => Fail(IntrospectFailed)
        case Some(listing) =>
          if FirstFailure(conn, psql, tables) < |tables| then Fail(IntrospectFailed)
          else Ok(listing + Sections(Descriptions(conn, psql, tables)))
  }

  /** The client invocations introspection makes, up to and including the first that fails. */
  function IntrospectionQueries(conn: string, psql: Psql): (r: seq<Query>)
    ensures r != [] && r[0] == TableNames
    ensures |r| > 1 ==> r[1] == TableList
    ensures psql(conn, TableNames).None? ==> r == [TableNames]
  {
    match psql(conn, TableNames)
    case None => [TableNames]
    case Some(names) =>
      var tables := ParseTables(names);
      if tables == [] then [TableNames]
      else match psql(conn, TableList)
        case None => [TableNames, TableList]
        case Some(_) => [TableNames, TableList] + DescribePhaseQueries(conn, psql, tables)
  }

  /** The description queries made: each table in turn, up to and including the first failure. */
  function DescribePhaseQueries(conn: string, psql: Psql, tables: seq<string>): (r: seq<Query>)
    ensures |r| <= |tables| && (tables != [] ==> r != [])
    ensures forall k :: 0 <= k < |r| ==> r[k] == Describe(tables[k])
  {
    var n := FirstFailure(conn, psql, tables);
    DescribeQueries(if n < |tables| then tables[..n + 1] else tables)
  }

  /** The accumulating loop over the tables, as bin/sync.js runs it. */
  method IntrospectSchema(conn: string, psql: Psql) returns (r: Outcome<string>, queries: seq<Query>)
    ensures r == Introspection(conn, psql) && queries == IntrospectionQueries(conn, psql)
    ensures r.Fail? ==> r.message == IntrospectFailed
  {
    queries := [TableNames];
    var tablesResult := psql(conn, TableNames);
    if tablesResult.None? {
      NamesFailed(conn, psql);
      return Fail(IntrospectFailed), queries;
    }
    var tables := ParseTables(tablesResult.value);
    if |tables| == 0 {
      NoTablesShortCircuit(conn, psql);
      return Ok(NoTables), queries;
    }
    queries := [TableNames, TableList];
    var listing := psql(conn, TableList);
    if listing.None? {
      ListingFailed(conn, psql);
      return Fail(IntrospectFailed), queries;
    }
    var outcome, phase := DescribeTables(conn, psql, tables, listing.value);
    ListedIntrospection(conn, psql, tables, listing.value);
    return outcome, queries + phase;
  }

  /** A failed table-name query fails introspection before anything else runs. */
  lemma NamesFailed(conn: string, psql: Psql)
    requires psql(conn, TableNames).None?
    ensures Introspection(conn, psql) == Fail(IntrospectFailed)
    ensures IntrospectionQueries(conn, psql) == [TableNames]
  {
  }

  /** With tables found, a failed listing query fails introspection before any table is described. */
  lemma ListingFailed(conn: string, psql: Psql)
    requires psql(conn, TableNames).Some? && ParseTables(psql(conn, TableNames).value) != []
    requires psql(conn, TableList).None?
    ensures Introspection(conn, psql) == Fail(IntrospectFailed)
    ensures IntrospectionQueries(conn, psql) == [TableNames, TableList]
  {
  }

  /** Once tables and listing exist, introspection is decided by the describe phase alone. */
  lemma ListedIntrospection(conn: string, psql: Psql, tables: seq<string>, listing: string)
    requires psql(conn, TableNames).Some? && tables == ParseTables(psql(conn, TableNames).value)
    requires tables != [] && psql(conn, TableList) == Some(listing)
    ensures IntrospectionQueries(conn, psql) == [TableNames, TableList] + DescribePhaseQueries(conn, psql, tables)
    ensures FirstFailure(conn, psql, tables) < |tables| ==> Introspection(conn, psql) == Fail(IntrospectFailed)
    ensures FirstFailure(conn, psql, tables) == |tables| ==>
      Introspection(conn, psql) == Ok(listing + Sections(Descriptions(conn, psql, tables)))
  {
    assert tables[..|tables|] == tables;
  }

  /** The `for` loop over the tables: `output += "\n" + desc` until a description fails. */
  method DescribeTables(conn: string, psql: Psql, tables: seq<string>, listing: string)
    returns (r: Outcome<string>, queries: seq<Query>)
    ensures queries == DescribePhaseQueries(conn, psql, tables)
    ensures FirstFailure(conn, psql, tables) < |tables| ==> r == Fail(IntrospectFailed)
    ensures FirstFailure(conn, psql, tables) == |tables| ==>
      && AllDescribed(conn, psql, tables)
      && r == Ok(listing + Sections(Descriptions(conn, psql, tables)))
  {
    queries := [];
    var output := listing;
    var i := 0;
    while i < |tables|
      invariant i <= |tables|
      invariant AllDescribed(conn, psql, tables[..i])
      invariant output == listing + Sections(Descriptions(conn, psql, tables[..i]))
      invariant queries == DescribeQueries(tables[..i])
    {
      var table := tables[i];
      QueriesStep(tables, i);
      queries := queries + [Describe(table)];
      var desc := psql(conn, Describe(table));
      if desc.None? {
        FirstFailureAt(conn, psql, tables, i);
        return Fail(IntrospectFailed), queries;
      }
      DescriptionsStep(conn, psql, tables, i);
      AppendSection(listing, Descriptions(conn, psql, tables[..i]), desc.value);
      output := output + "\n" + desc.value;
      i := i + 1;
    }
    assert tables[..i] == tables;
    FirstFailureAt(conn, psql, tables, i);
    return Ok(output), queries;
  }

  /** One more successful description adds one description at the end. */
  lemma DescriptionsStep(conn: string, psql: Psql, tables: seq<string>, i: nat)
    requires i < |tables|
    requires AllDescribed(conn, psql, tables[..i])
    requires psql(conn, Describe(tables[i])).Some?
    ensures AllDescribed(conn, psql, tables[..i + 1])
    ensures Descriptions(conn, psql, tables[..i + 1])
         == Descriptions(conn, psql, tables[..i]) + [psql(conn, Describe(tables[i])).value]
  {
  }

  /** The accumulator after one more section. */
  lemma AppendSection(listing: string, ds: seq<string>, d: string)
    ensures listing + Sections(ds + [d]) == listing + Sections(ds) + "\n" + d
  {
    assert (ds + [d])[..|ds|] == ds;
  }

  lemma QueriesStep(tables: seq<string>, i: nat)
    requires i < |tables|
    ensures DescribeQueries(tables[..i + 1]) == DescribeQueries(tables[..i]) + [Describe(tables[i])]
  {
  }

  /** FirstFailure is the index at which the loop first meets a failure, if it does. */
  lemma {:induction false} FirstFailureAt(conn: string, psql: Psql, tables: seq<string>, i: nat)
    requires i <= |tables|
    requires AllDescribed(conn, psql, tables[..i])
    requires i < |tables| ==> psql(conn, Describe(tables[i])).None?
    ensures FirstFailure(conn, psql, tables) == i
  {
    if i > 0 {
      assert tables[1..][..i - 1] == tables[..i][1..];
      FirstFailureAt(conn, psql, tables[1..], i - 1);
    }
  }

  /** No tables: exactly the fixed message, and only the listing of table names is run. */
  lemma NoTablesShortCircuit(conn: string, psql: Psql)
    requires psql(conn, TableNames).Some? && ParseTables(psql(conn, TableNames).value) == []
    ensures Introspection(conn, psql) == Ok("No tables found in public schema.")
    ensures IntrospectionQueries(conn, psql) == [TableNames]
  {
  }

  /**
   * When every invocation succeeds, the schema is the table listing followed by a
   * newline and the description of each table, in the order listed, and each table
   * is described exactly once.
   */
  lemma SuccessfulIntrospection(conn: string, psql: Psql)
    requires psql(conn, TableNames).Some?
    requires ParseTables(psql(conn, TableNames).value) != []
    requires psql(conn, TableList).Some?
    requires AllDescribed(conn, psql, ParseTables(psql(conn, TableNames).value))
    ensures
      var tables := ParseTables(psql(conn, TableNames).value);
      && Introspection(conn, psql) == Ok(psql(conn, TableList).value + Sections(Descriptions(conn, psql, tables)))
      && IntrospectionQueries(conn, psql) == [TableNames, TableList] + DescribeQueries(tables)
  {
    var tables := ParseTables(psql(conn, TableNames).value);
    assert tables[..|tables|] == tables;
    FirstFailureAt(conn, psql, tables, |tables|);
  }

  /** In the description phase every query but the last succeeds, and the last fails iff one did. */
  lemma DescribePhaseStopsAtFailure(conn: string, psql: Psql, tables: seq<string>)
    requires tables != []
    ensures var qs := DescribePhaseQueries(conn, psql, tables);
      && qs != []
      && (forall k :: 0 <= k < |qs| - 1 ==> psql(conn, qs[k]).Some?)
      && (psql(conn, Last(qs)).None? <==> FirstFailure(conn, psql, tables) < |tables|)
  {
    var n := FirstFailure(conn, psql, tables);
    var qs := DescribePhaseQueries(conn, psql, tables);
    if n < |tables| {
      assert qs == DescribeQueries(tables[..n + 1]);
      forall k | 0 <= k < |qs| - 1
        ensures psql(conn, qs[k]).Some?
      {
        assert qs[k] == Describe(tables[..n][k]);
      }
    } else {
      assert tables[..n] == tables;
      assert qs == DescribeQueries(tables);
    }
  }

  /**
   * The failing invocation, if any, is the last one made: introspection fails exactly
   * when the last query fails, and every query before it succeeded.
   */
  lemma FailureIsLastQuery(conn: string, psql: Psql)
    ensures Introspection(conn, psql).Fail? <==> psql(conn, Last(IntrospectionQueries(conn, psql))).None?
    ensures forall k :: 0 <= k < |IntrospectionQueries(conn, psql)| - 1 ==>
      psql(conn, IntrospectionQueries(conn, psql)[k]).Some?
  {
    if psql(conn, TableNames).Some? {
      var tables := ParseTables(psql(conn, TableNames).value);
      if tables != [] && psql(conn, TableList).Some? {
        DescribePhaseFailure(conn, psql, tables);
      }
    }
  }

  lemma DescribePhaseFailure(conn: string, psql: Psql, tables: seq<string>)
    requires psql(conn, TableNames).Some? && tables == ParseTables(psql(conn, TableNames).value)
    requires tables != [] && psql(conn, TableList).Some?
    ensures Introspection(conn, psql).Fail? <==> psql(conn, Last(IntrospectionQueries(conn, psql))).None?
    ensures forall k :: 0 <= k < |IntrospectionQueries(conn, psql)| - 1 ==>
      psql(conn, IntrospectionQueries(conn, psql)[k]).Some?
  {
    DescribePhaseUnfolds(conn, psql, tables);
    DescribePhaseStopsAtFailure(conn, psql, tables);
    PrefixedPhase(conn, psql, [TableNames, TableList], DescribePhaseQueries(conn, psql, tables));
  }

  /** The table names are asked for first, then the listing, and after that only descriptions. */
  lemma QueryOrder(conn: string, psql: Psql)
    ensures var qs := IntrospectionQueries(conn, psql);
      forall k :: 2 <= k < |qs| ==> qs[k].Describe?
  {
    var qs := IntrospectionQueries(conn, psql);
    if |qs| > 2 {
      var tables := ParseTables(psql(conn, TableNames).value);
      DescribePhaseUnfolds(conn, psql, tables);
      var phase := DescribePhaseQueries(conn, psql, tables);
      forall k | 2 <= k < |qs|
        ensures qs[k].Describe?
      {
        assert qs[k] == phase[k - 2];
      }
    }
  }

  /** With tables and a listing, introspection fails exactly when some description fails. */
  lemma DescribePhaseUnfolds(conn: string, psql: Psql, tables: seq<string>)
    requires psql(conn, TableNames).Some? && tables == ParseTables(psql(conn, TableNames).value)
    requires tables != [] && psql(conn, TableList).Some?
    ensures IntrospectionQueries(conn, psql) == [TableNames, TableList] + DescribePhaseQueries(conn, psql, tables)
    ensures Introspection(conn, psql).Fail? <==> FirstFailure(conn, psql, tables) < |tables|
  {
    if FirstFailure(conn, psql, tables) == |tables| {
      assert tables[..|tables|] == tables;
    }
  }

  /** Successful queries in front of a phase whose queries succeed up to its last one. */
  lemma PrefixedPhase(conn: string, psql: Psql, pre: seq<Query>, phase: seq<Query>)
    requires forall k :: 0 <= k < |pre| ==> psql(conn, pre[k]).Some?
    requires phase != [] && forall k :: 0 <= k < |phase| - 1 ==> psql(conn, phase[k]).Some?
    ensures Last(pre + phase) == Last(phase)
    ensures forall k :: 0 <= k < |pre + phase| - 1 ==> psql(conn, (pre + phase)[k]).Some?
  {
    forall k | 0 <= k < |pre + phase| - 1
      ensures psql(conn, (pre + phase)[k]).Some?
    {
      if k >= |pre| {
        assert (pre + phase)[k] == phase[k - |pre|];
      } else {
        assert (pre + phase)[k] == pre[k];
      }
    }
  }

  function Last<T>(s: seq<T>): T
    requires s != []
  {
    s[|s| - 1]
  }

  /** What a parsed table name looks like. */
  predicate IsTableName(t: string) {
    t != [] && IsTrimmed(t) && '\n' !in t
  }

  /** Parsing undoes joining table names with newlines. */
  lemma {:induction false} ParseJoinedNames(names: seq<string>)
    requires names != []
    requires forall k :: 0 <= k < |names| ==> IsTableName(names[k])
    ensures ParseTables(Join(names)) == names
  {
    var t := names[0];
    assert ParseTables(t) == [t] by {
      assert t == [] + t + [];
      TrimUnique(t, [], t, []);
      ParseTablesLine(t);
    }
    if |names| == 1 {
      assert names == [t];
    } else {
      var rest := names[1..];
      assert Join(names) == t + "\n" + Join(rest);
      ParseJoinedNames(rest);
      ParseTablesAppend(t, Join(rest));
      assert names == [t] + rest;
    }
  }

  /** Two tables `x`, `y` with descriptions `dx`, `dy` give `listing + "\n" + dx + "\n" + dy`. */
  lemma TwoTables(conn: string, psql: Psql, x: string, y: string, listing: string, dx: string, dy: string)
    requires IsTableName(x) && IsTableName(y)
    requires psql(conn, TableNames) == Some(x + "\n" + y)
    requires psql(conn, TableList) == Some(listing)
    requires psql(conn, Describe(x)) == Some(dx) && psql(conn, Describe(y)) == Some(dy)
    ensures Introspection(conn, psql) == Ok(listing + "\n" + dx + "\n" + dy)
    ensures IntrospectionQueries(conn, psql) == [TableNames, TableList, Describe(x), Describe(y)]
  {
    ParseTwo(x, y);
    DescribeTwo(conn, psql, x, y, dx, dy);
    SuccessfulIntrospection(conn, psql);
    SectionsTwo(listing, dx, dy);
  }

  lemma ParseTwo(x: string, y: string)
    requires IsTableName(x) && IsTableName(y)
    ensures ParseTables(x + "\n" + y) == [x, y]
  {
    assert Join([x, y]) == x + "\n" + y;
    ParseJoinedNames([x, y]);
  }

  lemma DescribeTwo(conn: string, psql: Psql, x: string, y: string, dx: string, dy: string)
    requires psql(conn, Describe(x)) == Some(dx) && psql(conn, Describe(y)) == Some(dy)
    ensures AllDescribed(conn, psql, [x, y])
    ensures Descriptions(conn, psql, [x, y]) == [dx, dy]
    ensures DescribeQueries([x, y]) == [Describe(x), Describe(y)]
  {
  }

  lemma SectionsTwo(listing: string, dx: string, dy: string)
    ensures listing + Sections([dx, dy]) == listing + "\n" + dx + "\n" + dy
  {
    assert [dx, dy] == [dx] + [dy];
    SectionsAppend([dx], [dy]);
    SectionsOne(dx);
    SectionsOne(dy);
  }
}
