/**
 * The effects the command line tool has on the outside world, recorded as a trace.
 * Nothing here performs I/O: the file system is a map from file name to contents,
 * and the database client is an oracle from a connection string and a query to
 * its standard output (None when the client process fails).
 */
module Io {
  import opened Wrappers

  /** The three kinds of `psql` invocation the tool makes. */
  datatype Query =
    | TableNames              // `SELECT tablename FROM pg_tables WHERE schemaname = 'public' ORDER BY tablename`
    | TableList               // `\dt public.*`
    | Describe(table: string) // `\d "<table>"`

  /** The database client: the output of one invocation, or None when it fails. */
  type Psql = (string, Query) -> Option<string>

  /** The local files: a file exists exactly when its name is a key. */
  type Files = map<string, string>

  /** One observable step of a run, in the order the tool performs it. */
  datatype Event =
    | Exists(path: string)                  // existsSync
    | Read(path: string)                    // readFileSync
    | Psql(query: Query)                    // execSync of psql
    | MakeDir(path: string)                 // mkdirSync(..., { recursive: true })
    | Write(path: string, contents: string) // writeFileSync

  /** Events that change the file system. */
  predicate Mutates(e: Event) {
    e.MakeDir? || e.Write?
  }

  /** The file-system changes of a trace, in order. */
  function Mutations(trace: seq<Event>): (r: seq<Event>)
    ensures forall k :: 0 <= k < |r| ==> Mutates(r[k])
    ensures r == [] <==> forall k :: 0 <= k < |trace| ==> !Mutates(trace[k])
  {
    if trace == [] then []
    else (if Mutates(trace[0]) then [trace[0]] else []) + Mutations(trace[1..])
  }

  lemma {:induction false} MutationsAppend(a: seq<Event>, b: seq<Event>)
    ensures Mutations(a + b) == Mutations(a) + Mutations(b)
  {
    if a == [] {
      assert a + b == b;
    } else {
      calc {
        Mutations(a + b);
        (if Mutates(a[0]) then [a[0]] else []) + Mutations((a + b)[1..]);
        { assert (a + b)[1..] == a[1..] + b; MutationsAppend(a[1..], b); }
        (if Mutates(a[0]) then [a[0]] else []) + Mutations(a[1..]) + Mutations(b);
      }
    }
  }

  /** The trace of a sequence of psql invocations. */
  function PsqlEvents(qs: seq<Query>): (r: seq<Event>)
    ensures |r| == |qs|
    ensures forall k :: 0 <= k < |r| ==> r[k] == Psql(qs[k])
  {
    seq(|qs|, k requires 0 <= k < |qs| => Psql(qs[k]))
  }

  /** The files after the writes of a trace; existence checks, reads, queries and mkdir change no file. */
  function Apply(fs: Files, trace: seq<Event>): Files
    decreases |trace|
  {
    if trace == [] then fs
    else Apply(if trace[0].Write? then fs[trace[0].path := trace[0].contents] else fs, trace[1..])
  }

  lemma {:induction false} ApplyAppend(fs: Files, a: seq<Event>, b: seq<Event>)
    ensures Apply(fs, a + b) == Apply(Apply(fs, a), b)
    decreases |a|
  {
    if a == [] {
      assert a + b == b;
    } else {
      assert (a + b)[1..] == a[1..] + b;
      ApplyAppend(if a[0].Write? then fs[a[0].path := a[0].contents] else fs, a[1..], b);
    }
  }

  /** A trace without file-system changes leaves the files as they were. */
  lemma {:induction false} ApplyWithoutMutations(fs: Files, trace: seq<Event>)
    requires Mutations(trace) == []
    ensures Apply(fs, trace) == fs
    decreases |trace|
  {
    if trace != [] {
      assert !Mutates(trace[0]);
      ApplyWithoutMutations(fs, trace[1..]);
    }
  }

  /** Client invocations change no file. */
  lemma PsqlEventsDoNotMutate(qs: seq<Query>)
    ensures Mutations(PsqlEvents(qs)) == []
  {
  }
}
