/**
 * `getConnectionString` of bin/sync.js: the DATABASE_URL environment value when it
 * is truthy, otherwise the value assigned in the first of `.env`, `.env.local`,
 * `.env.development` that exists and contains a match, otherwise null.
 */
module Connection {
  import opened Wrappers
  import opened Io
  import opened DotEnv

  /** The candidate files, in the order they are tried. */
  const EnvFiles: seq<string> := [".env", ".env.local", ".env.development"]

  /** JavaScript truthiness of `process.env.DATABASE_URL`: set and not empty. */
  predicate Truthy(v: Option<string>): (b: bool)
    ensures b ==> v.Some?
    ensures v.Some? ==> (b <==> |v.value| > 0)
  {
    v.Some? && v.value != ""
  }

  /** The file is passed over: it does not exist, or its contents hold no match. */
  predicate Skipped(fs: Files, name: string) {
    name !in fs || ExtractUrl(fs[name]).None?
  }

  /** The value found in the first file of `names` that is not skipped. */
  function FirstFileMatch(fs: Files, names: seq<string>): (r: Option<string>)
    ensures r.Some? ==> r.value != []
  {
    if names == [] then None
    else if !Skipped(fs, names[0]) then ExtractUrl(fs[names[0]])
    else FirstFileMatch(fs, names[1..])
  }

  /** The file-system calls made while trying `names`: existsSync, then readFileSync if it exists. */
  function ProbeTrace(fs: Files, names: seq<string>): (r: seq<Event>)
    ensures |r| <= 2 * |names|
    ensures names != [] ==> r != [] && r[0] == Exists(names[0])
  {
    if names == [] then []
    else if names[0] !in fs then [Exists(names[0])] + ProbeTrace(fs, names[1..])
    else if ExtractUrl(fs[names[0]]).Some? then [Exists(names[0]), Read(names[0])]
    else [Exists(names[0]), Read(names[0])] + ProbeTrace(fs, names[1..])
  }

  /** The connection string the tool resolves. */
  function ConnectionString(env: Option<string>, fs: Files): (r: Option<string>)
    ensures Truthy(env) ==> r == env
    ensures r.Some? ==> r.value != []
  {
    if Truthy(env) then env else FirstFileMatch(fs, EnvFiles)
  }

  /** The file-system calls made while resolving it. */
  function ConnectionTrace(env: Option<string>, fs: Files): (r: seq<Event>)
    ensures Truthy(env) <==> r == []
    ensures forall k :: 0 <= k < |r| ==> r[k].Exists? || (r[k].Read? && r[k].path in fs)
  {
    if Truthy(env) then [] else ProbesOnlyRead(fs, EnvFiles); ProbeTrace(fs, EnvFiles)
  }

  /** The loop over the candidate files, with its early return. */
  method GetConnectionString(env: Option<string>, fs: Files) returns (r: Option<string>, trace: seq<Event>)
    ensures Truthy(env) ==> r == env && trace == []
    ensures r == ConnectionString(env, fs) && trace == ConnectionTrace(env, fs)
    ensures r.Some? ==> r.value != ""
  {
    if Truthy(env) {
      return env, [];
    }
    r, trace := TryFiles(fs, EnvFiles);
  }

  /** `for (const envFile of names)`: the first file that exists and holds a match. */
  method TryFiles(fs: Files, names: seq<string>) returns (r: Option<string>, trace: seq<Event>)
    ensures r == FirstFileMatch(fs, names) && trace == ProbeTrace(fs, names)
  {
    trace := [];
    var i := 0;
    while i < |names|
      invariant i <= |names|
      invariant FirstFileMatch(fs, names) == FirstFileMatch(fs, names[i..])
      invariant ProbeTrace(fs, names) == trace + ProbeTrace(fs, names[i..])
    {
      var name := names[i];
      ProbeAdvance(fs, names, i, trace);
      if name !in fs {
        trace := trace + [Exists(name)];
      } else {
        var content := fs[name];
        trace := trace + [Exists(name), Read(name)];
        var m := ExtractUrl(content);
        if m.Some? {
          return m, trace;
        }
      }
      i := i + 1;
    }
    assert names[i..] == [];
    return None, trace;
  }

  /** The calls made on one candidate file: existsSync, then readFileSync if it exists. */
  function Step(fs: Files, name: string): (r: seq<Event>)
    ensures |r| >= 1 && r[0] == Exists(name)
    ensures |r| == 2 <==> name in fs
  {
    if name in fs then [Exists(name), Read(name)] else [Exists(name)]
  }

  /** The loop invariant carried over one iteration. */
  lemma ProbeAdvance(fs: Files, names: seq<string>, i: nat, trace: seq<Event>)
    requires i < |names|
    requires FirstFileMatch(fs, names) == FirstFileMatch(fs, names[i..])
    requires ProbeTrace(fs, names) == trace + ProbeTrace(fs, names[i..])
    ensures Skipped(fs, names[i]) ==>
      && FirstFileMatch(fs, names) == FirstFileMatch(fs, names[i + 1..])
      && ProbeTrace(fs, names) == (trace + Step(fs, names[i])) + ProbeTrace(fs, names[i + 1..])
    ensures !Skipped(fs, names[i]) ==>
      && FirstFileMatch(fs, names) == ExtractUrl(fs[names[i]])
      && ProbeTrace(fs, names) == trace + Step(fs, names[i])
  {
    ProbeStep(fs, names, i);
    if Skipped(fs, names[i]) {
      var rest := ProbeTrace(fs, names[i + 1..]);
      assert ProbeTrace(fs, names[i..]) == Step(fs, names[i]) + rest;
      Associative(trace, Step(fs, names[i]), rest);
    }
  }

  lemma Associative(a: seq<Event>, b: seq<Event>, c: seq<Event>)
    ensures a + (b + c) == (a + b) + c
  {
  }

  /** One step of the loop: how trying the file at index `i` unfolds. */
  lemma ProbeStep(fs: Files, names: seq<string>, i: nat)
    requires i < |names|
    ensures names[i] !in fs ==>
      && ProbeTrace(fs, names[i..]) == [Exists(names[i])] + ProbeTrace(fs, names[i + 1..])
      && FirstFileMatch(fs, names[i..]) == FirstFileMatch(fs, names[i + 1..])
    ensures names[i] in fs && ExtractUrl(fs[names[i]]).None? ==>
      && ProbeTrace(fs, names[i..]) == [Exists(names[i]), Read(names[i])] + ProbeTrace(fs, names[i + 1..])
      && FirstFileMatch(fs, names[i..]) == FirstFileMatch(fs, names[i + 1..])
    ensures names[i] in fs && ExtractUrl(fs[names[i]]).Some? ==>
      && ProbeTrace(fs, names[i..]) == [Exists(names[i]), Read(names[i])]
      && FirstFileMatch(fs, names[i..]) == ExtractUrl(fs[names[i]])
  {
    assert names[i..][0] == names[i];
    assert names[i..][1..] == names[i + 1..];
  }

  /**
   * The first file that is not skipped decides the result, and no file after it is
   * looked at.
   */
  lemma {:induction false} FirstMatchDecides(fs: Files, names: seq<string>, k: nat)
    requires k < |names|
    requires forall j :: 0 <= j < k ==> Skipped(fs, names[j])
    requires !Skipped(fs, names[k])
    ensures FirstFileMatch(fs, names) == ExtractUrl(fs[names[k]])
    ensures ProbeTrace(fs, names) == ProbeTrace(fs, names[..k]) + [Exists(names[k]), Read(names[k])]
  {
    if k > 0 {
      var tail := names[1..];
      assert tail[..k - 1] == names[..k][1..];
      FirstMatchDecides(fs, tail, k - 1);
      var last := [Exists(names[k]), Read(names[k])];
      assert tail[k - 1] == names[k];
      assert ProbeTrace(fs, names) == Step(fs, names[0]) + ProbeTrace(fs, tail);
      assert ProbeTrace(fs, names[..k]) == Step(fs, names[0]) + ProbeTrace(fs, tail[..k - 1]);
      assert Step(fs, names[0]) + (ProbeTrace(fs, tail[..k - 1]) + last)
          == (Step(fs, names[0]) + ProbeTrace(fs, tail[..k - 1])) + last;
    }
  }

  /** No value is found exactly when every file is skipped; absence is a result, not an error. */
  lemma {:induction false} NoMatchIsAbsence(fs: Files, names: seq<string>)
    ensures FirstFileMatch(fs, names).None? <==> forall j :: 0 <= j < |names| ==> Skipped(fs, names[j])
  {
    if names != [] {
      NoMatchIsAbsence(fs, names[1..]);
      assert forall j :: 1 <= j < |names| ==> names[j] == names[1..][j - 1];
    }
  }

  /** Only existence checks and reads happen, and only existing files are read. */
  lemma {:induction false} ProbesOnlyRead(fs: Files, names: seq<string>)
    ensures forall e :: e in ProbeTrace(fs, names) ==> e.Exists? || (e.Read? && e.path in fs)
    ensures Mutations(ProbeTrace(fs, names)) == []
  {
    if names != [] {
      ProbesOnlyRead(fs, names[1..]);
    }
  }

  /** Every read in `t` comes right after the existence check of the same file, which found it. */
  predicate ReadsFollowExists(fs: Files, t: seq<Event>) {
    forall k :: 0 <= k < |t| && t[k].Read? ==> 0 < k && t[k - 1] == Exists(t[k].path) && t[k].path in fs
  }

  /** readFileSync is only called right after existsSync has found the same file. */
  lemma {:induction false} ProbeOrder(fs: Files, names: seq<string>)
    ensures ReadsFollowExists(fs, ProbeTrace(fs, names))
  {
    if names != [] {
      ProbeOrder(fs, names[1..]);
      var rest := ProbeTrace(fs, names[1..]);
      var r := ProbeTrace(fs, names);
      var head := if names[0] in fs then [Exists(names[0]), Read(names[0])] else [Exists(names[0])];
      if names[0] !in fs || ExtractUrl(fs[names[0]]).None? {
        assert r == head + rest;
        forall k | 0 <= k < |r| && r[k].Read?
          ensures 0 < k && r[k - 1] == Exists(r[k].path) && r[k].path in fs
        {
          if k >= |head| {
            var j := k - |head|;
            assert r[k] == rest[j];
            assert ReadsFollowExists(fs, rest);
            assert r[k - 1] == rest[j - 1];
          } else {
            assert r[k] == head[k] && r[0] == head[0];
          }
        }
      } else {
        assert r == head;
      }
    }
  }

  /**
   * A truthy environment value wins and no file is consulted; otherwise the files are
   * tried in order; a resolved value is never empty.
   */
  lemma ResolutionOrder(env: Option<string>, fs: Files)
    ensures Truthy(env) ==> ConnectionString(env, fs) == env && ConnectionTrace(env, fs) == []
    ensures !Truthy(env) ==> ConnectionString(env, fs) == FirstFileMatch(fs, EnvFiles)
    ensures ConnectionString(env, fs).Some? ==> ConnectionString(env, fs).value != ""
    ensures Mutations(ConnectionTrace(env, fs)) == []
  {
    ProbesOnlyRead(fs, EnvFiles);
  }

  /** An empty environment value falls through to the files, like an unset one. */
  lemma EmptyEnvFallsThrough(fs: Files)
    ensures ConnectionString(Some(""), fs) == ConnectionString(None, fs)
    ensures ConnectionTrace(Some(""), fs) == ProbeTrace(fs, EnvFiles)
  {
  }
}
