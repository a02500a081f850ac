/**
  The command registry: script files named `<stem>.boba` in the commands
  directory become chat commands named `!<stem>` whose source is the file's
  contents wrapped in braces. The registry is built by one scan of the
  directory, changed one file at a time by create / delete / update, and
  consulted for every chat message.
 */
module Commands {
  import opened Bobascript
  import StubFunctions

  datatype Option<+T> = None | Some(value: T)

  /** The character every command name starts with. */
  const Prefix: char := '!'

  /** The only channel replies are sent to. */
  const Channel: string := "sand_head"

  /** One entry of the commands directory: its file name and what
      reading the file gives. */
  datatype DirEntry = DirEntry(fileName: string, contents: string)

  /** The index of the last '.' in `s`, if there is one. */
  function LastDot(s: string): (r: Option<nat>)
    ensures r.Some? ==> r.value < |s| && s[r.value] == '.'
    ensures r.Some? ==> forall j | r.value < j < |s| :: s[j] != '.'
    ensures r.None? ==> forall j | 0 <= j < |s| :: s[j] != '.'
  {
    if s == [] then None
    else if s[|s| - 1] == '.' then Some(|s| - 1)
    else LastDot(s[..|s| - 1])
  }

  /** `Path::extension` of a file name: what follows the last '.', unless
      there is no '.', the only '.' leads the name, or the name is "..". */
  function FileExtension(fileName: string): (ext: Option<string>)
    ensures ext.None? <==> fileName == ".." || forall j | 0 < j < |fileName| :: fileName[j] != '.'
    ensures ext.Some? ==> var dot := |fileName| - |ext.value| - 1;
      && 0 < dot && fileName[dot] == '.' && fileName[dot + 1..] == ext.value
      && forall j | 0 <= j < |ext.value| :: ext.value[j] != '.'
  {
    if fileName == ".." then None
    else
      match LastDot(fileName)
      case None => None
      case Some(i) => if i == 0 then None else Some(fileName[i + 1..])
  }

  /** Whether the startup scan keeps a directory entry: the name is ".boba"
      after a non-empty stem, which by `BobaExtension` is exactly when its
      extension is "boba". */
  function IsScript(fileName: string): (b: bool)
    ensures b ==> |fileName| > 5
  {
    |fileName| > 5 && fileName[|fileName| - 5..] == ".boba"
  }

  /** A file name has the extension "boba" exactly when it is ".boba" after
      a non-empty stem, so `IsScript` is the scan's extension test. */
  lemma BobaExtension(fileName: string)
    ensures FileExtension(fileName) == Some("boba") <==> IsScript(fileName)
  {
    var n := |fileName|;
    if n > 5 && fileName[n - 5..] == ".boba" {
      assert fileName[n - 5] == '.';
      assert fileName[n - 4] == 'b' && fileName[n - 3] == 'o';
      assert fileName[n - 2] == 'b' && fileName[n - 1] == 'a';
      var d := LastDot(fileName);
      assert d.Some? && d.value == n - 5;
      assert fileName[n - 4..] == "boba";
    }
    if FileExtension(fileName) == Some("boba") {
      var i := LastDot(fileName).value;
      assert fileName[i + 1..] == "boba";
      assert i == n - 5 && i > 0;
      assert fileName[n - 5..] == ['.'] + fileName[i + 1..];
    }
  }

  /** The command name of a file: the prefix, then the file name without
      its last five characters. */
  function CommandName(fileName: string): (name: string)
    requires |fileName| >= 5
    ensures |name| == |fileName| - 4 && name[0] == Prefix
    ensures name[1..] + fileName[|fileName| - 5..] == fileName
  {
    [Prefix] + fileName[..|fileName| - 5]
  }

  /** A file `stem.boba` is the command `!stem`. */
  lemma CommandNameOfScript(stem: string)
    ensures IsScript(stem + ".boba") <==> stem != []
    ensures CommandName(stem + ".boba") == [Prefix] + stem
  {
    var f := stem + ".boba";
    assert f[|f| - 5..] == ".boba";
    assert f[..|f| - 5] == stem;
  }

  /** Two script files with the same command name are the same file. */
  lemma CommandNameInjective(f: string, g: string)
    requires IsScript(f) && IsScript(g) && CommandName(f) == CommandName(g)
    ensures f == g
  {
    assert f[..|f| - 5] == CommandName(f)[1..] == CommandName(g)[1..] == g[..|g| - 5];
    assert f == f[..|f| - 5] + f[|f| - 5..];
    assert g == g[..|g| - 5] + g[|g| - 5..];
  }

  /** The stored source of a command: the file contents as one block. */
  function Wrap(contents: string): (source: string)
    ensures |source| == |contents| + 2
    ensures source[0] == '{' && source[|source| - 1] == '}'
    ensures source[1..|source| - 1] == contents
  {
    "{" + contents + "}"
  }

  /** Wrapping loses nothing: different contents give different sources. */
  lemma WrapInjective(a: string, b: string)
    requires Wrap(a) == Wrap(b)
    ensures a == b
  {
    assert a == Wrap(a)[1..|Wrap(a)| - 1];
  }

  /** The entries the startup scan keeps, in directory order. */
  function Scripts(dir: seq<DirEntry>): (r: seq<DirEntry>)
    ensures forall e | e in r :: e in dir && IsScript(e.fileName)
    ensures forall e | e in dir && IsScript(e.fileName) :: e in r
  {
    if dir == [] then []
    else (if IsScript(dir[0].fileName) then [dir[0]] else []) + Scripts(dir[1..])
  }

  /** The map the scan loop builds from the kept entries: each one inserted
      in turn, a later insert under the same name replacing an earlier one. */
  function Registered(scripts: seq<DirEntry>): (m: map<string, string>)
    requires forall e | e in scripts :: IsScript(e.fileName)
  {
    if scripts == [] then map[]
    else
      var last := scripts[|scripts| - 1];
      assert last in scripts && IsScript(last.fileName);
      Registered(scripts[..|scripts| - 1])[CommandName(last.fileName) := Wrap(last.contents)]
  }

  /** No two entries of a listing have the same file name, as in any
      directory. */
  ghost predicate DistinctNames(dir: seq<DirEntry>) {
    forall i, j | 0 <= i < j < |dir| :: dir[i].fileName != dir[j].fileName
  }

  /** `get_commands`: scan the listing once, keep the ".boba" entries, and
      insert each one under its command name with its wrapped contents. */
  method GetCommands(dir: seq<DirEntry>) returns (commands: map<string, string>)
    ensures commands == Registered(Scripts(dir))
  {
    var scripts := Scripts(dir);
    commands := map[];
    for i := 0 to |scripts|
      invariant commands == Registered(scripts[..i])
    {
      var entry := scripts[i];
      assert scripts[..i + 1][..i] == scripts[..i];
      commands := commands[CommandName(entry.fileName) := Wrap(entry.contents)];
    }
    assert scripts[..|scripts|] == scripts;
  }

  /** The scan has a command exactly for the names of the script entries. */
  lemma {:induction false} RegisteredKeys(scripts: seq<DirEntry>)
    requires forall e | e in scripts :: IsScript(e.fileName)
    ensures Registered(scripts).Keys == set e | e in scripts :: CommandName(e.fileName)
  {
    if scripts != [] {
      var init := scripts[..|scripts| - 1];
      assert forall e | e in init :: e in scripts;
      RegisteredKeys(init);
      assert scripts == init + [scripts[|scripts| - 1]];
    }
  }

  /** A file name that no kept entry has is not registered. */
  lemma {:induction false} NotRegistered(scripts: seq<DirEntry>, fileName: string)
    requires forall e | e in scripts :: IsScript(e.fileName)
    requires IsScript(fileName)
    requires forall i | 0 <= i < |scripts| :: scripts[i].fileName != fileName
    ensures CommandName(fileName) !in Registered(scripts)
  {
    if scripts != [] {
      var n := |scripts| - 1;
      var init := scripts[..n];
      assert forall e | e in init :: e in scripts;
      NotRegistered(init, fileName);
      if CommandName(scripts[n].fileName) == CommandName(fileName) {
        CommandNameInjective(scripts[n].fileName, fileName);
        assert false;
      }
    }
  }

  /** With distinct file names, every script entry's command holds exactly
      that entry's wrapped contents. */
  lemma {:induction false} RegisteredSource(scripts: seq<DirEntry>, i: nat)
    requires forall e | e in scripts :: IsScript(e.fileName)
    requires DistinctNames(scripts)
    requires i < |scripts|
    ensures var m := Registered(scripts);
      CommandName(scripts[i].fileName) in m && m[CommandName(scripts[i].fileName)] == Wrap(scripts[i].contents)
  {
    assert scripts[i] in scripts;
    var n := |scripts| - 1;
    if i < n {
      var init := scripts[..n];
      assert forall e | e in init :: e in scripts;
      assert DistinctNames(init);
      assert init[i] == scripts[i];
      RegisteredSource(init, i);
      assert scripts[n] in scripts;
      assert scripts[n].fileName != scripts[i].fileName;
      if CommandName(scripts[n].fileName) == CommandName(scripts[i].fileName) {
        CommandNameInjective(scripts[n].fileName, scripts[i].fileName);
        assert false;
      }
    }
  }

  /** With distinct file names, there is one command per script entry. */
  lemma {:induction false} RegisteredSize(scripts: seq<DirEntry>)
    requires forall e | e in scripts :: IsScript(e.fileName)
    requires DistinctNames(scripts)
    ensures |Registered(scripts)| == |scripts|
  {
    if scripts != [] {
      var n := |scripts| - 1;
      var init := scripts[..n];
      assert forall e | e in init :: e in scripts;
      RegisteredSize(init);
      var last := scripts[n];
      assert last in scripts;
      assert scripts == init + [last];
      NotRegistered(init, last.fileName);
      var before := Registered(init);
      assert Registered(scripts) == before[CommandName(last.fileName) := Wrap(last.contents)];
    }
  }

  /** Keeping only the script entries keeps file names distinct. */
  lemma {:induction false} ScriptsDistinct(dir: seq<DirEntry>)
    requires DistinctNames(dir)
    ensures DistinctNames(Scripts(dir))
  {
    if dir != [] {
      ScriptsDistinct(dir[1..]);
      var rest := Scripts(dir[1..]);
      var r := Scripts(dir);
      if IsScript(dir[0].fileName) {
        forall j | 0 < j < |r|
          ensures r[0].fileName != r[j].fileName
        {
          assert r[j] == rest[j - 1];
          assert rest[j - 1] in dir[1..];
        }
      }
    }
  }

  /** The number of script entries of a listing. */
  function ScriptCount(dir: seq<DirEntry>): (n: nat)
    ensures n <= |dir|
  {
    if dir == [] then 0 else (if IsScript(dir[0].fileName) then 1 else 0) + ScriptCount(dir[1..])
  }

  /** The startup scan of a directory makes one command per ".boba" entry. */
  lemma ScanSize(dir: seq<DirEntry>)
    requires DistinctNames(dir)
    ensures |Registered(Scripts(dir))| == ScriptCount(dir)
  {
    ScriptsDistinct(dir);
    RegisteredSize(Scripts(dir));
    ScriptsCount(dir);
  }

  /** The startup scan of a directory gives every ".boba" entry a command
      holding that file's wrapped contents. */
  lemma ScanSources(dir: seq<DirEntry>)
    requires DistinctNames(dir)
    ensures forall e | e in dir && IsScript(e.fileName) ::
      CommandName(e.fileName) in Registered(Scripts(dir)) &&
      Registered(Scripts(dir))[CommandName(e.fileName)] == Wrap(e.contents)
  {
    var s := Scripts(dir);
    ScriptsDistinct(dir);
    forall e | e in dir && IsScript(e.fileName)
      ensures CommandName(e.fileName) in Registered(s)
      ensures Registered(s)[CommandName(e.fileName)] == Wrap(e.contents)
    {
      var i :| 0 <= i < |s| && s[i] == e;
      RegisteredSource(s, i);
    }
  }

  /** Every command of the startup scan comes from a ".boba" entry of the
      directory. */
  lemma ScanNames(dir: seq<DirEntry>)
    ensures forall name | name in Registered(Scripts(dir)) ::
      exists e | e in dir :: IsScript(e.fileName) && CommandName(e.fileName) == name
  {
    RegisteredKeys(Scripts(dir));
  }

  /** A directory holding `greet.boba` and a non-script file gives exactly
      the command `!greet`, whose source is the file's contents in braces. */
  lemma GreetScenario(contents: string, other: DirEntry)
    requires other.fileName == "notes.txt"
    ensures Registered(Scripts([DirEntry("greet.boba", contents), other])) ==
      map["!greet" := "{" + contents + "}"]
  {
    var dir := [DirEntry("greet.boba", contents), other];
    CommandNameOfScript("greet");
    assert "greet" + ".boba" == "greet.boba";
    assert "notes.txt"[4..] != ".boba" by { assert "notes.txt"[4..][0] == "notes.txt"[4] == 's'; }
    assert IsScript(dir[0].fileName) && !IsScript(dir[1].fileName);
    assert dir[1..][1..] == [];
    assert Scripts(dir[1..]) == [];
    var s := Scripts(dir);
    assert s == [DirEntry("greet.boba", contents)];
    assert s[..0] == [];
    assert CommandName("greet.boba") == "!greet";
  }

  /** The kept entries are as many as the script entries. */
  lemma {:induction false} ScriptsCount(dir: seq<DirEntry>)
    ensures |Scripts(dir)| == ScriptCount(dir)
  {
    if dir != [] {
      ScriptsCount(dir[1..]);
    }
  }

  /** The first ' '-separated piece of a message: all of it when it holds
      no space. */
  function FirstToken(message: string): (token: string)
    ensures token <= message
    ensures forall j | 0 <= j < |token| :: token[j] != ' '
    ensures |token| < |message| ==> message[|token|] == ' '
  {
    if message == [] || message[0] == ' ' then []
    else [message[0]] + FirstToken(message[1..])
  }

  /** What handling one chat message leads to. The handler unwraps the
      results of compiling and of evaluating, so either failing panics the
      message loop instead of producing a reply. */
  datatype Outcome = NoReply | Say(channel: string, text: string) | Panic

  /** The live command registry: command name to wrapped source. */
  class Registry {
    var commands: map<string, string>

    /** The registry as first built, by one scan of the directory. */
    constructor (dir: seq<DirEntry>)
      ensures commands == Registered(Scripts(dir))
    {
      var scanned := GetCommands(dir);
      commands := scanned;
    }

    /** `create_command`: register the file's command with its wrapped
        contents, replacing any command of that name. */
    method CreateCommand(fileName: string, contents: string)
      requires |fileName| >= 5
      modifies this
      ensures commands == old(commands)[CommandName(fileName) := Wrap(contents)]
      ensures forall name | name in old(commands) && name != CommandName(fileName) ::
        name in commands && commands[name] == old(commands)[name]
    {
      var name := CommandName(fileName);
      commands := commands[name := Wrap(contents)];
    }

    /** `delete_command`: drop the file's command; nothing happens when there
        is none. */
    method DeleteCommand(fileName: string)
      requires |fileName| >= 5
      modifies this
      ensures commands == old(commands) - {CommandName(fileName)}
      ensures CommandName(fileName) !in old(commands) ==> commands == old(commands)
      ensures forall name | name in old(commands) && name != CommandName(fileName) ::
        name in commands && commands[name] == old(commands)[name]
    {
      var name := CommandName(fileName);
      commands := commands - {name};
    }

    /** `update_command`: delete, then create. The end state is the one
        creating alone would give. */
    method UpdateCommand(fileName: string, contents: string)
      requires |fileName| >= 5
      modifies this
      ensures commands == old(commands)[CommandName(fileName) := Wrap(contents)]
    {
      DeleteCommand(fileName);
      CreateCommand(fileName, contents);
    }

    /** `handle_command`: look up the message's first token; on a hit compile
        the command's source, evaluate it in a fresh interpreter that has the
        stub natives added, and say the result. `compile`, the interpreter's
        `evaluate` and `Value::to_string` belong to the interpreter and are
        given; `defaults` is the native table of a fresh interpreter. */
    method HandleCommand<Program, CompileError>(
      message: string,
      compile: string -> Result<Program, CompileError>,
      evaluate: (map<string, NativeFn>, Program) -> Result<Value, RuntimeError>,
      show: Value -> string,
      defaults: map<string, NativeFn>)
      returns (outcome: Outcome)
      ensures outcome.NoReply? <==> FirstToken(message) !in commands
      ensures outcome.Say? ==> outcome.channel == Channel
      ensures FirstToken(message) in commands ==>
        var natives := defaults["get" := StubFunctions.Get]["set" := StubFunctions.Set];
        match compile(commands[FirstToken(message)])
        case Err(_) => outcome == Panic
        case Ok(program) =>
          match evaluate(natives, program)
          case Err(_) => outcome == Panic
          case Ok(v) => outcome.Say? && outcome.text == if v.String? then v.str else show(v)
    {
      var command := FirstToken(message);
      if command !in commands {
        return NoReply;
      }
      var source := commands[command];
      var vm := new StubFunctions.Vm(defaults);
      StubFunctions.AddFunctions(vm);
      var compiled := compile(source);
      if compiled.Err? {
        return Panic;
      }
      var value := evaluate(vm.natives, compiled.value);
      if value.Err? {
        return Panic;
      }
      var text := if value.value.String? then value.value.str else show(value.value);
      outcome := Say(Channel, text);
    }
  }
}
