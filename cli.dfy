/**
 * `main` of bin/sync.js: dispatch on the first command-line argument, and the ordered
 * steps of a sync: resolve the connection string, create the skill directory,
 * introspect, write the schema file, write the skill file.
 */
module Cli {
  import opened Wrappers
  import opened Io
  import opened Connection
  import opened Introspect

  const SkillDir: string := ".claude/skills/db"
  /** `join(SKILL_DIR, "schema.sql")`. */
  const SchemaFile: string := SkillDir + "/schema.sql"
  /** `join(SKILL_DIR, "SKILL.md")`. */
  const SkillFile: string := SkillDir + "/SKILL.md"

  /** The skill document before the interpolated schema path. */
  const SkillHead: string := @"---
name: db
description: PostgreSQL database helper. Use when writing SQL queries, exploring schema, or working with the database.
allowed-tools: Bash, Read
---

## Database Schema

```
!cat "

  /** The skill document after the interpolated schema path. */
  const SkillTail: string := @" 2>/dev/null || echo ""Schema not found. Run: pg-sqill sync""
```

## Quick Reference

- **Query**: `psql $DATABASE_URL -c ""SELECT ...""`
- **Tables with uppercase**: Use quotes, e.g., `""Member""`, `""Task""`
- **Interactive**: `psql $DATABASE_URL` then `\dt` (tables), `\d tablename` (describe)

## Tips

- Always check column names with `\d tablename` before writing queries
- Use `LIMIT 5` when exploring data
- Join tables using foreign key relationships shown in schema
"

  /** The skill document: a fixed template with the schema path as its one interpolation. */
  function SkillContent(schemaFile: string): (r: string)
    ensures |r| == |SkillHead| + |schemaFile| + |SkillTail|
    ensures r[..|SkillHead|] == SkillHead && r[|SkillHead| + |schemaFile|..] == SkillTail
    ensures r[|SkillHead|..|SkillHead| + |schemaFile|] == schemaFile
  {
    SkillHead + schemaFile + SkillTail
  }

  /** What `process.argv[2]` selects. */
  datatype Command = Sync | Help | Unknown(arg: string)

  /** `command === "sync" || !command`, then `help`, `--help`, `-h`, then anything else. */
  function ParseCommand(arg: Option<string>): (c: Command)
    ensures c == Sync <==> arg.None? || arg.value == "" || arg.value == "sync"
    ensures c == Help <==> arg.Some? && (arg.value == "help" || arg.value == "--help" || arg.value == "-h")
    ensures c.Unknown? ==> arg == Some(c.arg)
  {
    if arg.None? || arg.value == "sync" || arg.value == "" then Sync
    else if arg.value == "help" || arg.value == "--help" || arg.value == "-h" then Help
    else Unknown(arg.value)
  }

  /** The ordered steps of a sync: one run of `sync()`. */
  method RunSync(env: Option<string>, fs: Files, psql: Psql) returns (code: int, trace: seq<Event>)
    ensures ConnectionString(env, fs).None? ==>
      && code == 1
      && trace == ConnectionTrace(env, fs)
    ensures ConnectionString(env, fs).Some? ==>
      var conn := ConnectionString(env, fs).value;
      var before := ConnectionTrace(env, fs) + [MakeDir(SkillDir)] + PsqlEvents(IntrospectionQueries(conn, psql));
      match Introspection(conn, psql)
      case Fail(_) =>
        && code == 1
        && trace == before
      case Ok(schema) =>
        && code == 0
        && trace == before + Writes(schema)
  {
    var conn, probes := GetConnectionString(env, fs);
    trace := probes;
    if conn.None? || conn.value == "" {
      return 1, trace;
    }
    trace := trace + [MakeDir(SkillDir)];
    var schema, queries := IntrospectSchema(conn.value, psql);
    trace := trace + PsqlEvents(queries);
    if schema.Fail? {
      return 1, trace;
    }
    trace := trace + Writes(schema.value);
    return 0, trace;
  }

  /** The two writes of a successful sync, schema first. */
  function Writes(schema: string): (r: seq<Event>)
    ensures |r| == 2 && r[0] == Write(SchemaFile, schema)
    ensures r[1] == Write(SkillFile, SkillContent(SchemaFile))
  {
    [Write(SchemaFile, schema), Write(SkillFile, SkillContent(SchemaFile))]
  }

  lemma WritesMutate(schema: string)
    ensures Mutations(Writes(schema)) == Writes(schema)
  {
    var w := Writes(schema);
    assert Mutates(w[0]) && Mutates(w[1]);
    assert w[1..][1..] == [];
  }

  /**
   * One run of the tool: its exit status and everything it did, in order. A thrown
   * introspection error is not caught, so Node.js ends the process with status 1.
   */
  method Run(arg: Option<string>, env: Option<string>, fs: Files, psql: Psql) returns (code: int, trace: seq<Event>)
    ensures code == 0 || code == 1
    ensures ParseCommand(arg) == Help ==> code == 0 && trace == []
    ensures ParseCommand(arg).Unknown? ==> code == 1 && trace == []
    ensures ParseCommand(arg) == Sync ==>
      && (ConnectionString(env, fs).None? ==> code == 1 && trace == ConnectionTrace(env, fs))
      && (ConnectionString(env, fs).Some? ==>
            var conn := ConnectionString(env, fs).value;
            var before := ConnectionTrace(env, fs) + [MakeDir(SkillDir)] + PsqlEvents(IntrospectionQueries(conn, psql));
            match Introspection(conn, psql)
            case Fail(_) => code == 1 && trace == before
            case Ok(schema) => code == 0 && trace == before + Writes(schema))
  {
    match ParseCommand(arg)
    case Help =>
      return 0, [];
    case Unknown(_) =>
      return 1, [];
    case Sync =>
      code, trace := RunSync(env, fs, psql);
  }

  /**
   * What the steps of a sync change, for any probe trace that changes nothing: mkdir
   * creates the directory and no file, the client invocations change nothing, and the
   * two writes set exactly the schema file and the skill file, whatever existed before.
   */
  lemma StepEffects(fs: Files, probes: seq<Event>, queries: seq<Query>, schema: string)
    requires Mutations(probes) == []
    ensures var before := probes + [MakeDir(SkillDir)] + PsqlEvents(queries);
      && Apply(fs, probes) == fs
      && Mutations(before) == [MakeDir(SkillDir)]
      && Apply(fs, before) == fs
      && Mutations(before + Writes(schema)) == [MakeDir(SkillDir)] + Writes(schema)
      && Apply(fs, before + Writes(schema)) == fs[SchemaFile := schema][SkillFile := SkillContent(SchemaFile)]
  {
    var mkdir := [MakeDir(SkillDir)];
    var before := probes + mkdir + PsqlEvents(queries);
    ApplyWithoutMutations(fs, probes);
    assert Mutations(mkdir) == mkdir;
    MutationsAppend(probes, mkdir);
    PsqlEventsDoNotMutate(queries);
    MutationsAppend(probes + mkdir, PsqlEvents(queries));
    WritesMutate(schema);
    MutationsAppend(before, Writes(schema));
    ApplyAppend(fs, probes, mkdir);
    assert Apply(fs, mkdir) == Apply(fs, []);
    ApplyAppend(fs, probes + mkdir, PsqlEvents(queries));
    ApplyWithoutMutations(fs, PsqlEvents(queries));
    ApplyAppend(fs, before, Writes(schema));
    var w := Writes(schema);
    assert Apply(fs, w) == Apply(fs[SchemaFile := schema], w[1..]);
    assert Apply(fs[SchemaFile := schema], w[1..])
        == Apply(fs[SchemaFile := schema][SkillFile := SkillContent(SchemaFile)], []);
  }

  /**
   * The effects of the traces `RunSync` produces: resolution changes nothing; a failed
   * introspection leaves only the directory behind; a successful one writes both files.
   */
  lemma SyncEffects(env: Option<string>, fs: Files, psql: Psql)
    ensures ConnectionString(env, fs).None? ==>
      Mutations(ConnectionTrace(env, fs)) == [] && Apply(fs, ConnectionTrace(env, fs)) == fs
    ensures ConnectionString(env, fs).Some? ==>
      var conn := ConnectionString(env, fs).value;
      var before := ConnectionTrace(env, fs) + [MakeDir(SkillDir)] + PsqlEvents(IntrospectionQueries(conn, psql));
      && Mutations(before) == [MakeDir(SkillDir)]
      && Apply(fs, before) == fs
      && (Introspection(conn, psql).Ok? ==>
            var schema := Introspection(conn, psql).value;
            && Mutations(before + Writes(schema)) == [MakeDir(SkillDir)] + Writes(schema)
            && Apply(fs, before + Writes(schema)) == fs[SchemaFile := schema][SkillFile := SkillContent(SchemaFile)])
  {
    ResolutionOrder(env, fs);
    var probes := ConnectionTrace(env, fs);
    ApplyWithoutMutations(fs, probes);
    if ConnectionString(env, fs).Some? {
      var conn := ConnectionString(env, fs).value;
      var r := Introspection(conn, psql);
      StepEffects(fs, probes, IntrospectionQueries(conn, psql), if r.Ok? then r.value else "");
    }
  }

  /** The skill document does not depend on the schema: every sync writes the same one. */
  lemma SkillDocumentIsFixed(a: string, b: string)
    ensures Writes(a)[1] == Writes(b)[1]
    ensures Writes(a)[0].contents == a
  {
  }
}
