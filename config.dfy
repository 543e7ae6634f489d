/**
 * `getConfdConfiguration` and `confdConfiguration.args`: how the sidecar
 * reads its confd settings and the files to provision from the process
 * environment, and the command line it gives confd.
 *
 * The environment is a parameter: the list of `KEY=VALUE` strings that
 * `os.Environ()` returns, in order.
 */
module Config {
  import opened Wrappers
  import opened Strings

  const DefaultConfdir: string := "/etc/confd"
  const DefaultBackend: string := "consul"
  const DefaultBinary: string := "confd"

  /** Variables named `CONFD_CONFDFILE` or `CONFD_CONFDFILE_<x>` provision conf.d files. */
  const ConfdFileFamily: string := "CONFD_CONFDFILE"
  /** Variables named `CONFD_TEMPLATE` or `CONFD_TEMPLATE_<x>` provision templates. */
  const TemplateFamily: string := "CONFD_TEMPLATE"

  datatype ConfdConfiguration = ConfdConfiguration(
    confdir: string,
    backend: string,
    node: string,
    binary: string,
    confdfiles: map<string, string>,  // file name -> content, for conf.d/
    templates: map<string, string>)   // file name -> content, for templates/

  /** The Go runtime panic of `pair[1]` on an entry that holds no `=`. */
  datatype Panic = IndexOutOfRange(entry: string)

  /** Environment entry `e` assigns the variable `key` (the name is what precedes the first `=`). */
  predicate Defines(e: string, key: string)
  {
    var pair := SplitOnce(e, '=');
    |pair| == 2 && pair[0] == key
  }

  /** No entry of `env` assigns `key`. */
  predicate Unset(env: seq<string>, key: string)
  {
    forall i :: 0 <= i < |env| ==> !Defines(env[i], key)
  }

  /** Entry `i` is the first entry of `env` that assigns `key`. */
  predicate FirstDefinition(env: seq<string>, key: string, i: int)
  {
    0 <= i < |env| && Defines(env[i], key) && Unset(env[..i], key)
  }

  /**
   * `os.Getenv(key)`: the value of the first entry that assigns `key`, or
   * "" when none does.
   */
  function Getenv(env: seq<string>, key: string): (value: string)
  {
    if |env| == 0 then ""
    else
      var pair := SplitOnce(env[0], '=');
      if |pair| == 2 && pair[0] == key then pair[1] else Getenv(env[1..], key)
  }

  /** `Getenv` reads the first assignment of the variable, and "" for an unset one. */
  lemma {:induction false} GetenvReadsFirstDefinition(env: seq<string>, key: string)
    ensures Unset(env, key) ==> Getenv(env, key) == ""
    ensures forall i :: FirstDefinition(env, key, i) ==> env[i] == key + "=" + Getenv(env, key)
  {
    if |env| > 0 {
      SplitOnceCutsAtFirst(env[0], '=');
      if !Defines(env[0], key) {
        GetenvReadsFirstDefinition(env[1..], key);
        forall i | FirstDefinition(env, key, i)
          ensures i > 0 && FirstDefinition(env[1..], key, i - 1)
        {
          assert env[..i][0] == env[0];
          assert env[1..][..i - 1] == env[..i][1..];
        }
        assert Unset(env, key) ==> Unset(env[1..], key) by {
          assert forall j :: 0 <= j < |env| - 1 ==> env[1..][j] == env[j + 1];
        }
      }
    }
  }

  /** The `if x == "" { x = default }` of `getConfdConfiguration`. */
  function OrDefault(value: string, default: string): (v: string)
  {
    if value == "" then default else value
  }

  /** A variable name is of a provisioning family: the family name itself or the family name, `_`, anything. */
  predicate InFamily(name: string, family: string)
  {
    HasPrefix(name, family + "_") || name == family
  }

  /** What one environment entry contributes to the map of one family. */
  datatype Provision = NotInFamily | Malformed | File(name: string, content: string)

  /**
   * The first line of a provisioning value is the file name and the rest
   * is the content; with no newline, the content is empty.
   */
  function FileOf(value: string): (p: Provision)
  {
    var data := SplitOnce(value, '\n');
    if |data| == 1 then File(data[0], "") else File(data[0], data[1])
  }

  /** How the loop of `getConfdConfiguration` treats entry `e` for one family. */
  function Classify(e: string, family: string): (p: Provision)
  {
    var pair := SplitOnce(e, '=');
    if !InFamily(pair[0], family) then NotInFamily
    else if |pair| == 1 then Malformed
    else FileOf(pair[1])
  }

  /** Entry `e` makes `getConfdConfiguration` panic. */
  predicate PanicsOn(e: string)
  {
    Classify(e, ConfdFileFamily).Malformed? || Classify(e, TemplateFamily).Malformed?
  }

  /** No entry of `env` makes `getConfdConfiguration` panic, checked entry by entry. */
  predicate NonePanic(env: seq<string>)
    decreases |env|
  {
    |env| == 0 || (NonePanic(env[..|env| - 1]) && !PanicsOn(env[|env| - 1]))
  }

  /** The environment up to entry `i` passes exactly when the entries before it pass and it does not panic. */
  lemma NonePanicExtend(env: seq<string>, i: int)
    requires 0 <= i < |env|
    ensures NonePanic(env[..i + 1]) <==> NonePanic(env[..i]) && !PanicsOn(env[i])
  {
    assert env[..i + 1][..i] == env[..i];
  }

  /** One entry that panics is enough for the whole environment to panic. */
  lemma {:induction false} PanicIsFatal(env: seq<string>, i: int)
    requires 0 <= i < |env| && PanicsOn(env[i])
    ensures !NonePanic(env)
    decreases |env|
  {
    if i < |env| - 1 {
      assert env[..|env| - 1][i] == env[i];
      PanicIsFatal(env[..|env| - 1], i);
    }
  }

  /** The map of files after one more entry: a file entry sets (or overwrites) its name. */
  function Provide(m: map<string, string>, p: Provision): (m': map<string, string>)
  {
    match p
    case File(name, content) => m[name := content]
    case _ => m
  }

  /** The map one family's entries build, entry after entry. */
  function Files(env: seq<string>, family: string): (files: map<string, string>)
    decreases |env|
  {
    if |env| == 0 then map[]
    else Provide(Files(env[..|env| - 1], family), Classify(env[|env| - 1], family))
  }

  /** One more entry of the environment, one more `Provide`. */
  lemma FilesExtend(env: seq<string>, i: int, family: string)
    requires 0 <= i < |env|
    ensures Files(env[..i + 1], family) == Provide(Files(env[..i], family), Classify(env[i], family))
  {
    assert env[..i + 1][..i] == env[..i];
  }

  /**
   * `getConfdConfiguration`: the three settings with their defaults, the
   * node setting as given, and the provisioning maps built by one pass over
   * the environment. It panics at the first family entry holding no `=`.
   */
  method GetConfdConfiguration(env: seq<string>) returns (r: Result<ConfdConfiguration, Panic>)
    ensures r.Failure? <==> !NonePanic(env)
    ensures r.Failure? ==> exists i :: 0 <= i < |env| && env[i] == r.error.entry && PanicsOn(env[i]) && NonePanic(env[..i])
    ensures r.Success? ==> r.value == ConfdConfiguration(
                             OrDefault(Getenv(env, "CONFD_CONFDIR"), DefaultConfdir),
                             OrDefault(Getenv(env, "CONFD_BACKEND"), DefaultBackend),
                             Getenv(env, "CONFD_NODE"),
                             OrDefault(Getenv(env, "CONFD_PATH"), DefaultBinary),
                             Files(env, ConfdFileFamily),
                             Files(env, TemplateFamily))
  {
    var confdir := Getenv(env, "CONFD_CONFDIR");
    if confdir == "" {
      confdir := DefaultConfdir;
    }
    var backend := Getenv(env, "CONFD_BACKEND");
    if backend == "" {
      backend := DefaultBackend;
    }
    var node := Getenv(env, "CONFD_NODE");
    var binary := Getenv(env, "CONFD_PATH");
    if binary == "" {
      binary := DefaultBinary;
    }
    var confdfiles: map<string, string> := map[];
    var templates: map<string, string> := map[];
    var i := 0;
    while i < |env|
      invariant 0 <= i <= |env|
      invariant confdfiles == Files(env[..i], ConfdFileFamily)
      invariant templates == Files(env[..i], TemplateFamily)
      invariant NonePanic(env[..i])
    {
      FilesExtend(env, i, ConfdFileFamily);
      FilesExtend(env, i, TemplateFamily);
      var next := ReadEntry(env[i], confdfiles, templates);
      if next.Failure? {
        PanicIsFatal(env, i);
        return Failure(next.error);
      }
      confdfiles, templates := next.value.0, next.value.1;
      NonePanicExtend(env, i);
      i := i + 1;
    }
    assert env[..i] == env;
    return Success(ConfdConfiguration(confdir, backend, node, binary, confdfiles, templates));
  }

  /**
   * The body of the loop of `getConfdConfiguration`: entry `e` updates the
   * conf.d map if it is a `CONFD_CONFDFILE` variable and the templates map
   * if it is a `CONFD_TEMPLATE` variable, and panics if such a variable
   * holds no `=`.
   */
  method ReadEntry(e: string, confdfiles: map<string, string>, templates: map<string, string>)
    returns (r: Result<(map<string, string>, map<string, string>), Panic>)
    ensures r.Failure? <==> PanicsOn(e)
    ensures r.Failure? ==> r.error == IndexOutOfRange(e)
    ensures r.Success? ==> r.value == (Provide(confdfiles, Classify(e, ConfdFileFamily)),
                                       Provide(templates, Classify(e, TemplateFamily)))
  {
    var confdfiles, templates := confdfiles, templates;
    var pair := SplitOnce(e, '=');
    if InFamily(pair[0], ConfdFileFamily) {
      if |pair| < 2 {
        return Failure(IndexOutOfRange(e));
      }
      var data := SplitOnce(pair[1], '\n');
      if |data| == 1 {
        data := data + [""];
      }
      confdfiles := confdfiles[data[0] := data[1]];
    }
    if InFamily(pair[0], TemplateFamily) {
      if |pair| < 2 {
        return Failure(IndexOutOfRange(e));
      }
      var data := SplitOnce(pair[1], '\n');
      if |data| == 1 {
        data := data + [""];
      }
      templates := templates[data[0] := data[1]];
    }
    return Success((confdfiles, templates));
  }

  /** A provisioning value splits at its first newline into file name and content. */
  lemma FileOfSplitsAtFirstNewline(value: string)
    ensures FileOf(value).File?
    ensures '\n' !in value ==> FileOf(value) == File(value, "")
    ensures '\n' in value ==> FileOf(value).name + "\n" + FileOf(value).content == value
                              && '\n' !in FileOf(value).name
  {
    SplitOnceCutsAtFirst(value, '\n');
  }

  /** Entry `e` provides a file called `name` in `family`. */
  predicate Names(e: string, family: string, name: string)
  {
    Classify(e, family).File? && Classify(e, family).name == name
  }

  /** A file is provisioned exactly when some entry of its family names it. */
  lemma {:induction false} FilesDomain(env: seq<string>, family: string, name: string)
    ensures name in Files(env, family) <==> exists i :: 0 <= i < |env| && Names(env[i], family, name)
    decreases |env|
  {
    if |env| > 0 {
      var init := env[..|env| - 1];
      FilesDomain(init, family, name);
      if name in Files(env, family) {
        if !Names(env[|env| - 1], family, name) {
          var i :| 0 <= i < |init| && Names(init[i], family, name);
          assert env[i] == init[i];
        }
      } else {
        forall i | 0 <= i < |env|
          ensures !Names(env[i], family, name)
        {
          if i < |init| {
            assert env[i] == init[i];
          }
        }
      }
    }
  }

  /**
   * The content a file gets is that of the LAST entry of its family naming
   * it: a later entry with the same name overwrites an earlier one.
   */
  lemma {:induction false} FilesLastWins(env: seq<string>, family: string, i: int)
    requires 0 <= i < |env| && Classify(env[i], family).File?
    requires forall j :: i < j < |env| ==> !Names(env[j], family, Classify(env[i], family).name)
    ensures Classify(env[i], family).name in Files(env, family)
    ensures Files(env, family)[Classify(env[i], family).name] == Classify(env[i], family).content
    decreases |env|
  {
    if i < |env| - 1 {
      var init := env[..|env| - 1];
      assert init[i] == env[i];
      FilesLastWins(init, family, i);
    }
  }

  /** Settings left empty or unset take their defaults; the node setting has none. */
  lemma SettingDefaults(env: seq<string>, key: string, default: string)
    requires default != "" && '=' !in key
    ensures Unset(env, key) ==> OrDefault(Getenv(env, key), default) == default
    ensures forall i :: 0 <= i < |env| && Unset(env[..i], key) && env[i] == key + "=" ==>
                        OrDefault(Getenv(env, key), default) == default
    ensures forall i, v :: 0 <= i < |env| && Unset(env[..i], key) && env[i] == key + "=" + v && v != "" ==>
                        OrDefault(Getenv(env, key), default) == v
    ensures OrDefault(Getenv(env, key), default) != ""
  {
    GetenvReadsFirstDefinition(env, key);
    forall i, v | 0 <= i < |env| && Unset(env[..i], key) && env[i] == key + "=" + v
      ensures Getenv(env, key) == v
    {
      SplitOnceJoin(key, '=', v);
      assert FirstDefinition(env, key, i);
      assert key + "=" + v == key + "=" + Getenv(env, key);
    }
    forall i | 0 <= i < |env| && Unset(env[..i], key) && env[i] == key + "="
      ensures Getenv(env, key) == ""
    {
      assert env[i] == key + "=" + "";
    }
  }

  /** The three arguments confd always gets. */
  function BaseArgs(c: ConfdConfiguration): (args: seq<string>)
  {
    ["-confdir=" + c.confdir, "-backend=" + c.backend, "-watch"]
  }

  /** `confdConfiguration.args`: the confd command line, with `-node` only for a non-empty node. */
  function Args(c: ConfdConfiguration): (args: seq<string>)
  {
    BaseArgs(c) + (if c.node != "" then ["-node=" + c.node] else [])
  }

  /** Argument `arg` has the form `-name=value`. */
  predicate SetsFlag(arg: string, name: string)
  {
    |name| + 2 <= |arg| && arg[..|name| + 2] == "-" + name + "="
  }

  /**
   * The value a `-name=value` flag parser reads for `name` from an argument
   * list: the last such argument wins, and an absent flag reads as "".
   */
  function FlagValue(args: seq<string>, name: string): (value: string)
  {
    if |args| == 0 then ""
    else
      var last := args[|args| - 1];
      if SetsFlag(last, name) then last[|name| + 2..] else FlagValue(args[..|args| - 1], name)
  }

  /** An argument whose second character is not the first of `name` does not set `name`. */
  lemma NotSetsFlag(arg: string, name: string)
    requires |name| > 0 && |arg| > 1 && arg[1] != name[0]
    ensures !SetsFlag(arg, name)
  {
  }

  /** `-name=value` sets `name` to `value`. */
  lemma SetsFlagTo(name: string, value: string)
    ensures SetsFlag("-" + name + "=" + value, name)
    ensures ("-" + name + "=" + value)[|name| + 2..] == value
  {
    var arg := "-" + name + "=" + value;
    assert arg[..|name| + 2] == "-" + name + "=";
  }

  lemma BaseArgsConfdir(c: ConfdConfiguration)
    ensures FlagValue(BaseArgs(c), "confdir") == c.confdir
  {
    var confdir, backend := "-confdir=" + c.confdir, "-backend=" + c.backend;
    assert BaseArgs(c)[..2] == [confdir, backend] && [confdir, backend][..1] == [confdir];
    SetsFlagTo("confdir", c.confdir);
    NotSetsFlag("-watch", "confdir");
    NotSetsFlag(backend, "confdir");
    assert FlagValue(BaseArgs(c), "confdir") == FlagValue([confdir, backend], "confdir");
    assert FlagValue([confdir, backend], "confdir") == FlagValue([confdir], "confdir");
  }

  lemma BaseArgsBackend(c: ConfdConfiguration)
    ensures FlagValue(BaseArgs(c), "backend") == c.backend
  {
    var confdir, backend := "-confdir=" + c.confdir, "-backend=" + c.backend;
    assert BaseArgs(c)[..2] == [confdir, backend];
    SetsFlagTo("backend", c.backend);
    NotSetsFlag("-watch", "backend");
  }

  lemma BaseArgsNoNode(c: ConfdConfiguration)
    ensures FlagValue(BaseArgs(c), "node") == ""
  {
    var confdir, backend := "-confdir=" + c.confdir, "-backend=" + c.backend;
    assert BaseArgs(c)[..2] == [confdir, backend] && [confdir, backend][..1] == [confdir] && [confdir][..0] == [];
    NotSetsFlag("-watch", "node");
    NotSetsFlag(backend, "node");
    NotSetsFlag(confdir, "node");
    assert FlagValue(BaseArgs(c), "node") == FlagValue([confdir, backend], "node");
    assert FlagValue([confdir, backend], "node") == FlagValue([confdir], "node");
    assert FlagValue([confdir], "node") == FlagValue([], "node");
  }

  /**
   * confd reads back from its command line the configured directory,
   * backend and node (an empty node being the same as no `-node` flag),
   * and is put in watch mode; `-node` is passed only when the node is set.
   */
  lemma ArgsRoundTrip(c: ConfdConfiguration)
    ensures FlagValue(Args(c), "confdir") == c.confdir
    ensures FlagValue(Args(c), "backend") == c.backend
    ensures FlagValue(Args(c), "node") == c.node
    ensures Args(c)[2] == "-watch"
    ensures |Args(c)| == (if c.node == "" then 3 else 4)
  {
    BaseArgsConfdir(c);
    BaseArgsBackend(c);
    BaseArgsNoNode(c);
    if c.node != "" {
      var node := "-node=" + c.node;
      assert Args(c) == BaseArgs(c) + [node];
      assert Args(c)[..3] == BaseArgs(c);
      SetsFlagTo("node", c.node);
      NotSetsFlag(node, "confdir");
      NotSetsFlag(node, "backend");
    } else {
      assert Args(c) == BaseArgs(c);
    }
  }
}
