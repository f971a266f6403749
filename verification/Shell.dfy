/** The command line sent to a remote shell, and the reader it is written for.

    The reader follows the Shell Command Language of POSIX.1-2017 (XCU
    chapter 2): quoting (2.2.1 to 2.2.3), token recognition (2.3) and AND
    lists (2.9.3).  It accepts only lines whose meaning is settled by quoting
    alone: an unquoted character that the standard lets start an expansion,
    a redirection, a comment, a pattern or another kind of list makes it give
    up, as does a reserved word or an assignment in command position.  What
    it accepts, every conforming shell reads the same way. */
module Shell {
  import opened Text

  // --------------------------------------------------------------- reader

  datatype Token = Word(text: string, assigns: bool) | AndIf

  datatype Mode =
    | Blank                     // between tokens
    | InWord
    | Single                    // 2.2.2
    | Double                    // 2.2.3
    | Escape(inWord: bool)      // after an unquoted backslash, 2.2.1
    | DoubleEscape              // after a backslash inside double quotes
    | Amp                       // after one unquoted '&'
    | Bad

  /** Where the reader stands: the tokens delimited so far, and the text of
      the word under construction after quote removal. */
  datatype Reader = Reader(mode: Mode, out: seq<Token>, text: string, assigns: bool)

  const START := Reader(Blank, [], "", false)

  // Characters that 2.2 says must or may need to be quoted, besides those
  // the reader handles itself (quotes, backslash, blanks, '&').
  const SPECIAL := "|;<>()$`\n*?[#~%"

  // 2.4
  const RESERVED: set<string> := {
    "!", "{", "}", "case", "do", "done", "elif", "else", "esac", "fi", "for",
    "if", "in", "then", "until", "while" }

  function Delimited(r: Reader): seq<Token> {
    if r.mode.InWord? then r.out + [Word(r.text, r.assigns)] else r.out
  }

  function Step(r: Reader, c: char): Reader {
    match r.mode
    case Bad => r
    case Amp =>
      if c == '&' then Reader(Blank, r.out + [AndIf], "", false) else r.(mode := Bad)
    case Single =>
      if c == '\'' then r.(mode := InWord) else r.(text := r.text + [c])
    case Double =>
      if c == '"' then r.(mode := InWord)
      else if c == '\\' then r.(mode := DoubleEscape)
      else if c == '$' || c == '`' then r.(mode := Bad)
      else r.(text := r.text + [c])
    case DoubleEscape =>
      if c == '\n' then r.(mode := Double)
      else if c in "$`\"\\" then r.(mode := Double, text := r.text + [c])
      else r.(mode := Double, text := r.text + ['\\', c])
    case Escape(inWord) =>
      if c == '\n' then r.(mode := if inWord then InWord else Blank)
      else r.(mode := InWord, text := r.text + [c])
    case _ =>
      if c == ' ' || c == '\t' then Reader(Blank, Delimited(r), "", false)
      else if c == '&' then Reader(Amp, Delimited(r), "", false)
      else if c == '\'' then r.(mode := Single)
      else if c == '"' then r.(mode := Double)
      else if c == '\\' then r.(mode := Escape(r.mode.InWord?))
      else if c in SPECIAL then r.(mode := Bad)
      else r.(mode := InWord, text := r.text + [c], assigns := r.assigns || c == '=')
  }

  function Run(s: string, r: Reader): Reader {
    if s == "" then r else Run(s[1..], Step(r, s[0]))
  }

  function Tokens(s: string): Option<seq<Token>> {
    var r := Run(s, START);
    if r.mode.Blank? || r.mode.InWord? then Some(Delimited(r)) else None
  }

  /** A line of words only. */
  function ReadWords(s: string): Option<seq<string>> {
    match Tokens(s)
    case None => None
    case Some(toks) => if AndIf in toks then None else Some(Texts(toks))
  }

  function Texts(toks: seq<Token>): seq<string>
    requires AndIf !in toks
  {
    seq(|toks|, i requires 0 <= i < |toks| => (assert toks[i] in toks; toks[i].text))
  }

  type SimpleCommand = seq<string>

  /** An AND list: simple commands separated by "&&". */
  function ReadAndList(s: string): Option<seq<SimpleCommand>> {
    match Tokens(s)
    case None => None
    case Some(toks) => Commands(toks, [])
  }

  function Commands(toks: seq<Token>, current: SimpleCommand): Option<seq<SimpleCommand>> {
    if toks == [] then
      if current == [] then None else Some([current])
    else
      match toks[0]
      case AndIf =>
        if current == [] then None
        else (match Commands(toks[1..], [])
              case None => None
              case Some(rest) => Some([current] + rest))
      case Word(text, assigns) =>
        if current == [] && (assigns || text in RESERVED) then None
        else Commands(toks[1..], current + [text])
  }

  // -------------------------------------------------------------- quoters

  const DOUBLE_QUOTED := "'\"'\"'"   // close, a double-quoted quote, reopen
  const BACKSLASHED := "'\\''"       // close, an escaped quote, reopen
  const QUOTE_REPLACEMENTS := {DOUBLE_QUOTED, BACKSLASHED}

  function Quote(s: string, repl: string): string {
    "'" + ReplaceAll(s, "'", repl) + "'"
  }

  /** The quoter of internal/targets. */
  function ShellQuote(s: string): string {
    Quote(s, DOUBLE_QUOTED)
  }

  /** One element of internal/tools' shellJoin. */
  function EscapeQuote(s: string): string {
    Quote(s, BACKSLASHED)
  }

  function Quoted(args: seq<string>): seq<string> {
    seq(|args|, i requires 0 <= i < |args| => EscapeQuote(args[i]))
  }

  method ShellJoin(args: seq<string>) returns (line: string)
    ensures ReadWords(line) == Some(args)
  {
    var out := new string[|args|](_ => "");
    for i := 0 to |args|
      invariant forall k | 0 <= k < i :: out[k] == EscapeQuote(args[k])
    {
      out[i] := EscapeQuote(args[i]);
    }
    line := Join(out[..], " ");
    assert out[..] == Quoted(args);
    JoinedArgsRead(args, START);
    assert START.out + ArgTokens(args) == ArgTokens(args);
    assert Tokens(line) == Some(ArgTokens(args));
    ArgTokensText(args);
  }

  // ------------------------------------------------------- reader algebra

  lemma {:induction false} RunConcat(a: string, b: string, r: Reader)
    ensures Run(a + b, r) == Run(b, Run(a, r))
  {
    if a == "" {
      assert a + b == b;
    } else {
      assert (a + b)[1..] == a[1..] + b;
      RunConcat(a[1..], b, Step(r, a[0]));
    }
  }

  predicate Plain(c: char) {
    c !in SPECIAL && c !in " \t&'\"\\="
  }

  lemma {:induction false} RunPlain(w: string, r: Reader)
    requires forall c | c in w :: Plain(c)
    requires r.mode.Blank? || r.mode.InWord?
    ensures Run(w, r) == if w == "" then r else r.(mode := InWord, text := r.text + w)
  {
    if w != "" {
      assert w[0] in w && forall c | c in w[1..] :: c in w;
      RunPlain(w[1..], Step(r, w[0]));
      assert w == [w[0]] + w[1..];
      assert (r.text + [w[0]]) + w[1..] == r.text + w;
    }
  }

  lemma RunFront(s: string, r: Reader)
    requires s != ""
    ensures Run(s, r) == Run(s[1..], Step(r, s[0]))
  {
  }

  lemma RunChar(c: char, r: Reader)
    ensures Run([c], r) == Step(r, c)
  {
    assert Run([c][1..], Step(r, c)) == Step(r, c);
  }

  /** How each quoter writes one quote character: read from inside single
      quotes it adds exactly that character. */
  lemma WritesQuote(repl: string, r: Reader)
    requires r.mode.Single? && repl in QUOTE_REPLACEMENTS
    ensures Run(repl, r) == r.(text := r.text + "'")
  {
    var r1 := r.(mode := InWord);
    var r2 := r.(mode := InWord, text := r.text + "'");
    if repl == DOUBLE_QUOTED {
      RunFront(repl, r);
      RunFront(repl[1..], r1);
      RunFront(repl[2..], r.(mode := Double));
      RunFront(repl[3..], r2.(mode := Double));
      RunFront(repl[4..], r2);
    } else {
      RunFront(repl, r);
      RunFront(repl[1..], r1);
      RunFront(repl[2..], r.(mode := Escape(true)));
      RunFront(repl[3..], r2);
    }
  }

  lemma RunOneQuoted(c: char, repl: string, tail: string, r: Reader)
    requires r.mode.Single? && repl in QUOTE_REPLACEMENTS
    ensures Run((if c == '\'' then repl else [c]) + tail, r) == Run(tail, r.(text := r.text + [c]))
  {
    if c == '\'' {
      RunConcat(repl, tail, r);
      WritesQuote(repl, r);
    } else {
      RunConcat([c], tail, r);
      RunChar(c, r);
    }
  }

  lemma {:induction false} RunQuotedBody(s: string, repl: string, r: Reader)
    requires r.mode.Single? && repl in QUOTE_REPLACEMENTS
    ensures Run(ReplaceAll(s, "'", repl), r) == r.(text := r.text + s)
  {
    if s == "" {
      assert r.text + s == r.text;
    } else {
      var tail := ReplaceAll(s[1..], "'", repl);
      assert ReplaceAll(s, "'", repl) == (if s[0] == '\'' then repl else [s[0]]) + tail by {
        ReplaceAllChar('\'', s, repl);
      }
      RunOneQuoted(s[0], repl, tail, r);
      RunQuotedBody(s[1..], repl, r.(text := r.text + [s[0]]));
      assert (r.text + [s[0]]) + s[1..] == r.text + s;
    }
  }

  /** A quoted string, read where a word may start or continue, adds exactly
      the original characters to the word. */
  lemma RunQuoted(s: string, repl: string, r: Reader)
    requires r.mode.Blank? || r.mode.InWord?
    requires repl in QUOTE_REPLACEMENTS
    ensures Run(Quote(s, repl), r) == r.(mode := InWord, text := r.text + s)
  {
    var body := ReplaceAll(s, "'", repl);
    RunConcat("'" + body, "'", r);
    RunConcat("'", body, r);
    RunChar('\'', r);
    RunQuotedBody(s, repl, r.(mode := Single));
    RunChar('\'', r.(mode := Single, text := r.text + s));
  }

  /** shellQuote is a right inverse of the word reader, for every string. */
  lemma ShellQuoteReadsBack(s: string)
    ensures ReadWords(ShellQuote(s)) == Some([s])
  {
    RunQuoted(s, DOUBLE_QUOTED, START);
    assert START.text + s == s;
    assert Delimited(Reader(InWord, [], s, false)) == [Word(s, false)];
    assert Tokens(ShellQuote(s)) == Some([Word(s, false)]);
    assert Texts([Word(s, false)]) == [s];
  }

  // ------------------------------------------------------------ shellJoin

  function ArgTokens(args: seq<string>): seq<Token> {
    seq(|args|, i requires 0 <= i < |args| => Word(args[i], false))
  }

  lemma ArgTokensText(args: seq<string>)
    ensures AndIf !in ArgTokens(args) && Texts(ArgTokens(args)) == args
  {
  }

  /** A quoted argument, a blank, then more. */
  lemma RunArgThen(arg: string, rest: string, r: Reader)
    requires r.mode.Blank? && r.text == "" && !r.assigns
    ensures Run(EscapeQuote(arg) + " " + rest, r) == Run(rest, Reader(Blank, r.out + [Word(arg, false)], "", false))
  {
    RunConcat(EscapeQuote(arg) + " ", rest, r);
    RunConcat(EscapeQuote(arg), " ", r);
    RunQuoted(arg, BACKSLASHED, r);
    assert "" + arg == arg;
    RunChar(' ', Run(EscapeQuote(arg), r));
  }

  lemma {:induction false} JoinedArgsRead(args: seq<string>, r: Reader)
    requires r.mode.Blank? && r.text == "" && !r.assigns
    ensures var r' := Run(Join(Quoted(args), " "), r);
            (r'.mode.Blank? || r'.mode.InWord?) && Delimited(r') == r.out + ArgTokens(args)
  {
    var quoted := Quoted(args);
    if |args| == 1 {
      RunQuoted(args[0], BACKSLASHED, r);
      assert "" + args[0] == args[0];
    } else if |args| > 1 {
      var rest := args[1..];
      assert quoted[1..] == Quoted(rest);
      RunArgThen(args[0], Join(quoted[1..], " "), r);
      JoinedArgsRead(rest, Reader(Blank, r.out + [Word(args[0], false)], "", false));
      assert ArgTokens(args) == [Word(args[0], false)] + ArgTokens(rest);
      assert (r.out + [Word(args[0], false)]) + ArgTokens(rest) == r.out + ArgTokens(args);
    }
  }

  // --------------------------------------------------- the remote command

  datatype Target = Target(workDir: string, env: map<string, string>)
  datatype ExecOptions = ExecOptions(command: string, cwd: string, env: map<string, string>, privileged: bool)

  predicate ValidEnvName(s: string) {
    s != "" && !('0' <= s[0] <= '9') && forall c | c in s :: NameChar(c)
  }

  predicate NameChar(c: char) {
    c == '_' || 'A' <= c <= 'Z' || 'a' <= c <= 'z' || '0' <= c <= '9'
  }

  /** validEnvName: the loop over the characters.  Letters, underscores and,
      after the first place, digits. */
  method CheckEnvName(s: string) returns (ok: bool)
    ensures ok == ValidEnvName(s)
    ensures ok <==>
      s != "" && forall i | 0 <= i < |s| ::
        s[i] == '_' || 'A' <= s[i] <= 'Z' || 'a' <= s[i] <= 'z' || (i > 0 && '0' <= s[i] <= '9')
  {
    if s == "" {
      return false;
    }
    for i := 0 to |s|
      invariant i > 0 ==> !('0' <= s[0] <= '9')
      invariant forall j | 0 <= j < i :: NameChar(s[j])
    {
      var c := s[i];
      if i == 0 && '0' <= c <= '9' {
        return false;
      }
      if !(c == '_' || 'A' <= c <= 'Z' || 'a' <= c <= 'z' || (i > 0 && '0' <= c <= '9')) {
        assert !NameChar(c) && c in s;
        return false;
      }
    }
    ok := true;
  }

  function EffectiveCwd(t: Target, opts: ExecOptions): string {
    if opts.cwd == "" then t.workDir else opts.cwd
  }

  function MergedEnv(t: Target, opts: ExecOptions): map<string, string> {
    t.env + opts.env
  }

  /** The commands the remote shell must run, as the caller means them. */
  function Plan(t: Target, opts: ExecOptions, keys: seq<string>): seq<SimpleCommand>
    requires forall k | k in keys :: k in MergedEnv(t, opts)
  {
    (if EffectiveCwd(t, opts) == "" then [] else [["cd", EffectiveCwd(t, opts)]])
    + Exports(keys, MergedEnv(t, opts))
    + [FinalCommand(opts)]
  }

  function Exports(keys: seq<string>, env: map<string, string>): seq<SimpleCommand>
    requires forall k | k in keys :: k in env
  {
    if keys == [] then []
    else (assert keys[0] in keys; [["export", keys[0] + "=" + env[keys[0]]]]) + Exports(keys[1..], env)
  }

  function FinalCommand(opts: ExecOptions): SimpleCommand {
    (if opts.privileged then ["sudo", "-n", "--"] else []) + ["/bin/sh", "-lc", opts.command]
  }

  /** The merged names in strictly ascending order, each exactly once. */
  ghost predicate AscendingNames(keys: seq<string>, env: map<string, string>) {
    Sorted(keys) && multiset(keys) == multiset(env.Keys)
  }

  /** buildRemoteCommand.  Read back, the printed line is the plan. */
  method PrintPlan(t: Target, opts: ExecOptions) returns (r: Result<string, string>, ghost names: seq<string>)
    ensures AscendingNames(names, MergedEnv(t, opts)) && forall k | k in names :: k in MergedEnv(t, opts)
    ensures r.Ok? <==> forall k | k in MergedEnv(t, opts) :: ValidEnvName(k)
    ensures r.Ok? ==> ReadAndList(r.value) == Some(Plan(t, opts, names))
    ensures r.Err? ==> r.error in MergedEnv(t, opts) && !ValidEnvName(r.error)
    ensures r.Err? ==> forall k | k in MergedEnv(t, opts) && !ValidEnvName(k) :: Leq(r.error, k)
  {
    var parts: seq<string> := [];
    var cwd := opts.cwd;
    if cwd == "" {
      cwd := t.workDir;
    }
    if cwd != "" {
      parts := parts + ["cd " + ShellQuote(cwd)];
    }
    assert parts == CdParts(EffectiveCwd(t, opts));
    var env := t.env + opts.env;
    var keys := SortedNames(env);
    names := keys;
    var bad;
    parts, bad := AddExports(parts, keys, env);
    if bad.Some? {
      return Err(bad.value), names;
    }
    var cmd := opts.command;
    if opts.privileged {
      cmd := "sudo -n -- /bin/sh -lc " + ShellQuote(cmd);
    } else {
      cmd := "/bin/sh -lc " + ShellQuote(cmd);
    }
    parts := parts + [cmd];
    PartsRead(t, opts, keys);
    r := Ok(Join(parts, " && "));
  }

  /** The remote command.  Read by a POSIX shell the printed line is exactly
      these commands: a cd to the call's directory, or to the target's when
      the call has none; one export for each name of either environment in
      ascending order, the call's value before the target's; and the command,
      under sudo when privileged.  It fails exactly when a name is invalid,
      and then names the least invalid one. */
  method BuildRemoteCommand(t: Target, opts: ExecOptions)
    returns (r: Result<string, string>, ghost names: seq<string>, ghost cmds: seq<SimpleCommand>)
    ensures Sorted(names) && multiset(names) == multiset(t.env.Keys + opts.env.Keys)
    ensures forall k | k in names :: k in t.env || k in opts.env
    ensures r.Ok? <==> forall k | k in t.env.Keys + opts.env.Keys :: ValidEnvName(k)
    ensures r.Err? ==> r.error in t.env.Keys + opts.env.Keys && !ValidEnvName(r.error)
    ensures r.Err? ==> forall k | k in t.env.Keys + opts.env.Keys && !ValidEnvName(k) :: Leq(r.error, k)
    ensures r.Ok? ==> ReadAndList(r.value) == Some(cmds) && cmds == Plan(t, opts, names)
    ensures |cmds| == (if opts.cwd == "" && t.workDir == "" then 0 else 1) + |names| + 1
    ensures opts.cwd != "" ==> cmds[0] == ["cd", opts.cwd]
    ensures opts.cwd == "" && t.workDir != "" ==> cmds[0] == ["cd", t.workDir]
    ensures forall i | 0 <= i < |names| ::
              cmds[|cmds| - 1 - |names| + i]
              == ["export", names[i] + "=" + (if names[i] in opts.env then opts.env[names[i]] else t.env[names[i]])]
    ensures cmds[|cmds| - 1] == (if opts.privileged then ["sudo", "-n", "--", "/bin/sh", "-lc", opts.command]
                                 else ["/bin/sh", "-lc", opts.command])
  {
    var line, keys := PrintPlan(t, opts);
    r, names, cmds := line, keys, Plan(t, opts, keys);
    PlanExactly(t, opts, names);
    MergedNames(t, opts);
  }

  lemma MergedNames(t: Target, opts: ExecOptions)
    ensures MergedEnv(t, opts).Keys == t.env.Keys + opts.env.Keys
  {
  }

  /** The loop over the merged names: one export each, or the first bad name. */
  method AddExports(before: seq<string>, keys: seq<string>, env: map<string, string>)
    returns (parts: seq<string>, bad: Option<string>)
    requires Sorted(keys) && forall k | k in keys :: k in env
    ensures bad.None? ==> parts == before + ExportParts(keys, env) && forall k | k in keys :: ValidEnvName(k)
    ensures bad.Some? ==> bad.value in keys && !ValidEnvName(bad.value)
    ensures bad.Some? ==> forall k | k in keys && !ValidEnvName(k) :: Leq(bad.value, k)
  {
    parts := before;
    for i := 0 to |keys|
      invariant forall k | k in keys[..i] :: k in keys && ValidEnvName(k)
      invariant parts == before + ExportParts(keys[..i], env)
    {
      var k := keys[i];
      assert keys[..i + 1] == keys[..i] + [k];
      var valid := CheckEnvName(k);
      if !valid {
        LeastFrom(keys, i);
        return parts, Some(k);
      }
      parts := parts + ["export " + k + "=" + ShellQuote(env[k])];
      ExportPartsAppend(keys[..i], k, env);
    }
    assert keys[..|keys|] == keys;
    bad := None;
  }

  method SortedNames(env: map<string, string>) returns (keys: seq<string>)
    ensures AscendingNames(keys, env) && forall k :: k in keys <==> k in env
  {
    keys := KeysInSomeOrder(env.Keys);
    keys := Sort(keys);
    NoRepeats(keys, env.Keys);
  }

  lemma LeastFrom(keys: seq<string>, i: nat)
    requires Sorted(keys) && i < |keys|
    ensures forall b | b in keys && b !in keys[..i] :: Leq(keys[i], b)
  {
    LeqTotal(keys[i], keys[i]);
  }

  function CdParts(cwd: string): seq<string> {
    if cwd == "" then [] else ["cd " + ShellQuote(cwd)]
  }

  function ExportParts(keys: seq<string>, env: map<string, string>): seq<string>
    requires forall k | k in keys :: k in env
  {
    if keys == [] then []
    else (assert keys[0] in keys; ["export " + keys[0] + "=" + ShellQuote(env[keys[0]])]) + ExportParts(keys[1..], env)
  }

  lemma {:induction false} ExportPartsAppend(keys: seq<string>, k: string, env: map<string, string>)
    requires (forall x | x in keys :: x in env) && k in env
    ensures ExportParts(keys + [k], env) == ExportParts(keys, env) + ["export " + k + "=" + ShellQuote(env[k])]
  {
    if keys == [] {
      assert (keys + [k])[1..] == [];
    } else {
      assert (keys + [k])[1..] == keys[1..] + [k];
      ExportPartsAppend(keys[1..], k, env);
    }
  }

  // ------------------------------------------- each part prints its command

  /** The tokens of one simple command of the plan. */
  ghost predicate CommandTokens(toks: seq<Token>, cmd: SimpleCommand) {
    && |toks| == |cmd| > 0
    && (forall i | 0 <= i < |toks| :: toks[i].Word? && toks[i].text == cmd[i])
    && !toks[0].assigns && cmd[0] !in RESERVED
  }

  /** Reading the part between tokens leaves exactly the command's words. */
  ghost predicate Prints(part: string, cmd: SimpleCommand) {
    exists toks :: CommandTokens(toks, cmd) && Adds(part, toks)
  }

  ghost predicate Adds(part: string, toks: seq<Token>) {
    forall out: seq<Token> ::
      var r := Run(part, Reader(Blank, out, "", false));
      r.mode.InWord? && Delimited(r) == out + toks
  }

  /** A plain word, a blank, then more. */
  lemma RunWordThen(w: string, rest: string, out: seq<Token>)
    requires w != "" && forall c | c in w :: Plain(c)
    ensures Run(w + " " + rest, Reader(Blank, out, "", false))
         == Run(rest, Reader(Blank, out + [Word(w, false)], "", false))
  {
    var r := Reader(Blank, out, "", false);
    RunConcat(w + " ", rest, r);
    RunConcat(w, " ", r);
    RunPlain(w, r);
    assert "" + w == w;
    RunChar(' ', Run(w, r));
  }

  lemma RunLastQuoted(s: string, out: seq<Token>)
    ensures Run(ShellQuote(s), Reader(Blank, out, "", false)) == Reader(InWord, out, s, false)
  {
    RunQuoted(s, DOUBLE_QUOTED, Reader(Blank, out, "", false));
    assert "" + s == s;
  }

  lemma RunCd(cwd: string, out: seq<Token>)
    ensures Run("cd " + ShellQuote(cwd), Reader(Blank, out, "", false))
         == Reader(InWord, out + [Word("cd", false)], cwd, false)
  {
    assert "cd" + " " + ShellQuote(cwd) == "cd " + ShellQuote(cwd);
    RunWordThen("cd", ShellQuote(cwd), out);
    RunLastQuoted(cwd, out + [Word("cd", false)]);
  }

  lemma CdPrints(cwd: string)
    ensures Prints("cd " + ShellQuote(cwd), ["cd", cwd])
  {
    var toks := [Word("cd", false), Word(cwd, false)];
    forall out: seq<Token>
      ensures Run("cd " + ShellQuote(cwd), Reader(Blank, out, "", false))
           == Reader(InWord, out + [toks[0]], cwd, false)
    {
      RunCd(cwd, out);
    }
    assert forall out: seq<Token> :: (out + [toks[0]]) + [toks[1]] == out + toks;
    assert Adds("cd " + ShellQuote(cwd), toks);
    assert CommandTokens(toks, ["cd", cwd]);
  }

  lemma RunExport(k: string, quoted: string, out: seq<Token>)
    requires ValidEnvName(k)
    ensures Run("export " + k + "=" + quoted, Reader(Blank, out, "", false))
         == Run(quoted, Reader(InWord, out + [Word("export", false)], k + "=", true))
  {
    var tail := k + "=" + quoted;
    assert "export " + k + "=" + quoted == "export" + " " + tail;
    RunWordThen("export", tail, out);
    RunName(k, quoted, out + [Word("export", false)]);
  }

  lemma RunName(k: string, rest: string, out: seq<Token>)
    requires ValidEnvName(k)
    ensures Run(k + "=" + rest, Reader(Blank, out, "", false))
         == Run(rest, Reader(InWord, out, k + "=", true))
  {
    var r := Reader(Blank, out, "", false);
    RunConcat(k + "=", rest, r);
    RunConcat(k, "=", r);
    NameIsPlain(k);
    RunPlain(k, r);
    RunEquals(k, out);
  }

  lemma NameIsPlain(k: string)
    requires ValidEnvName(k)
    ensures forall c | c in k :: Plain(c)
  {
  }

  lemma RunEquals(k: string, out: seq<Token>)
    requires ValidEnvName(k)
    ensures Run("=", Reader(InWord, out, "" + k, false)) == Reader(InWord, out, k + "=", true)
  {
    assert "" + k == k;
    RunChar('=', Reader(InWord, out, k, false));
  }

  lemma ExportPrints(k: string, v: string)
    requires ValidEnvName(k)
    ensures Prints("export " + k + "=" + ShellQuote(v), ["export", k + "=" + v])
  {
    var toks := [Word("export", false), Word(k + "=" + v, true)];
    var part := "export " + k + "=" + ShellQuote(v);
    forall out: seq<Token>
      ensures Run(part, Reader(Blank, out, "", false))
           == Reader(InWord, out + [toks[0]], k + "=" + v, true)
    {
      RunExport(k, ShellQuote(v), out);
      RunQuoted(v, DOUBLE_QUOTED, Reader(InWord, out + [toks[0]], k + "=", true));
      assert (k + "=") + v == k + "=" + v;
    }
    assert forall out: seq<Token> :: (out + [toks[0]]) + [toks[1]] == out + toks;
    assert Adds(part, toks);
    assert CommandTokens(toks, ["export", k + "=" + v]);
  }

  function Print(opts: ExecOptions): string {
    if opts.privileged then "sudo -n -- /bin/sh -lc " + ShellQuote(opts.command)
    else "/bin/sh -lc " + ShellQuote(opts.command)
  }

  lemma RunShell(command: string, out: seq<Token>)
    ensures Run("/bin/sh -lc " + ShellQuote(command), Reader(Blank, out, "", false))
         == Reader(InWord, out + [Word("/bin/sh", false), Word("-lc", false)], command, false)
  {
    var q := ShellQuote(command);
    assert "/bin/sh -lc " + q == "/bin/sh" + " " + ("-lc" + " " + q);
    RunWordThen("/bin/sh", "-lc" + " " + q, out);
    var out1 := out + [Word("/bin/sh", false)];
    RunWordThen("-lc", q, out1);
    RunLastQuoted(command, out1 + [Word("-lc", false)]);
    assert out1 + [Word("-lc", false)] == out + [Word("/bin/sh", false), Word("-lc", false)];
  }

  lemma RunSudo(tail: string, out: seq<Token>)
    ensures Run("sudo -n -- " + tail, Reader(Blank, out, "", false))
         == Run(tail, Reader(Blank, out + [Word("sudo", false), Word("-n", false), Word("--", false)], "", false))
  {
    assert "sudo -n -- " + tail == "sudo" + " " + ("-n" + " " + ("--" + " " + tail));
    RunWordThen("sudo", "-n" + " " + ("--" + " " + tail), out);
    var out1 := out + [Word("sudo", false)];
    RunWordThen("-n", "--" + " " + tail, out1);
    var out2 := out1 + [Word("-n", false)];
    RunWordThen("--", tail, out2);
    assert out2 + [Word("--", false)] == out + [Word("sudo", false), Word("-n", false), Word("--", false)];
  }

  function FinalTokens(opts: ExecOptions): seq<Token> {
    (if opts.privileged then [Word("sudo", false), Word("-n", false), Word("--", false)] else [])
    + [Word("/bin/sh", false), Word("-lc", false), Word(opts.command, false)]
  }

  lemma RunFinal(opts: ExecOptions, out: seq<Token>)
    ensures var r := Run(Print(opts), Reader(Blank, out, "", false));
            r.mode.InWord? && Delimited(r) == out + FinalTokens(opts)
  {
    if opts.privileged {
      var tail := "/bin/sh -lc " + ShellQuote(opts.command);
      var sudo := [Word("sudo", false), Word("-n", false), Word("--", false)];
      assert Print(opts) == "sudo -n -- " + tail;
      RunSudo(tail, out);
      RunShell(opts.command, out + sudo);
    } else {
      RunShell(opts.command, out);
    }
  }

  lemma FinalPrints(opts: ExecOptions)
    ensures Prints(Print(opts), FinalCommand(opts))
  {
    assert Adds(Print(opts), FinalTokens(opts)) by {
      forall out: seq<Token>
        ensures var r := Run(Print(opts), Reader(Blank, out, "", false));
                r.mode.InWord? && Delimited(r) == out + FinalTokens(opts)
      {
        RunFinal(opts, out);
      }
    }
    assert CommandTokens(FinalTokens(opts), FinalCommand(opts));
  }

  // ----------------------------------------------------------- AND lists

  function Separated(groups: seq<seq<Token>>): seq<Token> {
    if |groups| == 0 then []
    else if |groups| == 1 then groups[0]
    else groups[0] + [AndIf] + Separated(groups[1..])
  }

  lemma RunAndIf(r: Reader)
    requires r.mode.InWord?
    ensures Run(" && ", r) == Reader(Blank, Delimited(r) + [AndIf], "", false)
  {
    var s := " && ";
    var blank := Reader(Blank, Delimited(r), "", false);
    RunFront(s, r);
    RunFront(s[1..], blank);
    RunFront(s[2..], blank.(mode := Amp));
    RunFront(s[3..], Reader(Blank, Delimited(r) + [AndIf], "", false));
  }

  lemma RunPartThen(part: string, toks: seq<Token>, rest: string, out: seq<Token>)
    requires Adds(part, toks)
    ensures Run(part + " && " + rest, Reader(Blank, out, "", false))
         == Run(rest, Reader(Blank, out + toks + [AndIf], "", false))
  {
    var r := Reader(Blank, out, "", false);
    RunConcat(part + " && ", rest, r);
    RunConcat(part, " && ", r);
    RunAndIf(Run(part, r));
  }

  ghost predicate AllAdd(parts: seq<string>, groups: seq<seq<Token>>) {
    |parts| == |groups| && (parts == [] || (Adds(parts[0], groups[0]) && AllAdd(parts[1..], groups[1..])))
  }

  lemma PartRead(part: string, toks: seq<Token>, out: seq<Token>)
    requires Adds(part, toks)
    ensures var r := Run(part, Reader(Blank, out, "", false));
            r.mode.InWord? && Delimited(r) == out + toks
  {
  }

  lemma PartThenRead(part: string, toks: seq<Token>, rest: string, restToks: seq<Token>, out: seq<Token>)
    requires Adds(part, toks)
    requires var r := Run(rest, Reader(Blank, out + toks + [AndIf], "", false));
             r.mode.InWord? && Delimited(r) == out + toks + [AndIf] + restToks
    ensures var r := Run(part + " && " + rest, Reader(Blank, out, "", false));
            r.mode.InWord? && Delimited(r) == out + (toks + [AndIf] + restToks)
  {
    RunPartThen(part, toks, rest, out);
    assert out + toks + [AndIf] + restToks == out + (toks + [AndIf] + restToks);
  }

  lemma {:induction false} JoinedPartsRead(parts: seq<string>, groups: seq<seq<Token>>, out: seq<Token>)
    requires AllAdd(parts, groups) && parts != []
    ensures var r := Run(Join(parts, " && "), Reader(Blank, out, "", false));
            r.mode.InWord? && Delimited(r) == out + Separated(groups)
  {
    if |parts| > 1 {
      JoinedPartsRead(parts[1..], groups[1..], out + groups[0] + [AndIf]);
      PartThenRead(parts[0], groups[0], Join(parts[1..], " && "), Separated(groups[1..]), out);
    } else {
      PartRead(parts[0], groups[0], out);
    }
  }

  lemma {:induction false} CommandsOfGroup(toks: seq<Token>, cmd: SimpleCommand, current: SimpleCommand, rest: seq<Token>)
    requires |toks| == |cmd| && (forall i | 0 <= i < |toks| :: toks[i].Word? && toks[i].text == cmd[i])
    requires current == [] && toks != [] ==> !toks[0].assigns && cmd[0] !in RESERVED
    ensures Commands(toks + rest, current) == Commands(rest, current + cmd)
  {
    if toks == [] {
      assert toks + rest == rest && current + cmd == current;
    } else {
      assert (toks + rest)[1..] == toks[1..] + rest;
      CommandsOfGroup(toks[1..], cmd[1..], current + [cmd[0]], rest);
      assert current + [cmd[0]] + cmd[1..] == current + cmd;
    }
  }

  lemma {:induction false} CommandsOfGroups(groups: seq<seq<Token>>, cmds: seq<SimpleCommand>)
    requires |groups| == |cmds| > 0
    requires forall i | 0 <= i < |cmds| :: CommandTokens(groups[i], cmds[i])
    ensures Commands(Separated(groups), []) == Some(cmds)
  {
    assert [] + cmds[0] == cmds[0];
    if |groups| == 1 {
      assert groups[0] + [] == groups[0];
      CommandsOfGroup(groups[0], cmds[0], [], []);
      assert cmds == [cmds[0]];
    } else {
      var rest := Separated(groups[1..]);
      assert Separated(groups) == groups[0] + ([AndIf] + rest);
      CommandsOfGroup(groups[0], cmds[0], [], [AndIf] + rest);
      assert ([AndIf] + rest)[1..] == rest;
      CommandsOfGroups(groups[1..], cmds[1..]);
      assert cmds == [cmds[0]] + cmds[1..];
    }
  }

  lemma JoinedCommandsRead(parts: seq<string>, cmds: seq<SimpleCommand>)
    requires PrintAll(parts, cmds) && parts != []
    ensures ReadAndList(Join(parts, " && ")) == Some(cmds)
  {
    var groups := PickTokens(parts, cmds);
    JoinedPartsRead(parts, groups, []);
    assert [] + Separated(groups) == Separated(groups);
    CommandsOfGroups(groups, cmds);
  }

  ghost predicate PrintAll(parts: seq<string>, cmds: seq<SimpleCommand>) {
    |parts| == |cmds| && (parts == [] || (Prints(parts[0], cmds[0]) && PrintAll(parts[1..], cmds[1..])))
  }

  lemma {:induction false} PrintMore(parts: seq<string>, cmds: seq<SimpleCommand>, part: string, cmd: SimpleCommand)
    requires PrintAll(parts, cmds) && Prints(part, cmd)
    ensures PrintAll(parts + [part], cmds + [cmd])
  {
    if parts == [] {
      assert (parts + [part])[1..] == [] && (cmds + [cmd])[1..] == [];
    } else {
      assert (parts + [part])[1..] == parts[1..] + [part] && (cmds + [cmd])[1..] == cmds[1..] + [cmd];
      PrintMore(parts[1..], cmds[1..], part, cmd);
    }
  }

  lemma PrintFirst(part: string, cmd: SimpleCommand, parts: seq<string>, cmds: seq<SimpleCommand>)
    requires Prints(part, cmd) && PrintAll(parts, cmds)
    ensures PrintAll([part] + parts, [cmd] + cmds)
  {
    assert ([part] + parts)[1..] == parts && ([cmd] + cmds)[1..] == cmds;
  }

  lemma {:induction false} ExportPartsPrint(keys: seq<string>, env: map<string, string>)
    requires forall k | k in keys :: k in env && ValidEnvName(k)
    ensures PrintAll(ExportParts(keys, env), Exports(keys, env))
  {
    if keys != [] {
      var k := keys[0];
      assert k in keys;
      ExportPrints(k, env[k]);
      ExportPartsPrint(keys[1..], env);
      PrintFirst("export " + k + "=" + ShellQuote(env[k]), ["export", k + "=" + env[k]],
                 ExportParts(keys[1..], env), Exports(keys[1..], env));
    }
  }

  /** The parts before the last command. */
  lemma SetupPrints(cwd: string, keys: seq<string>, env: map<string, string>)
    requires forall k | k in keys :: k in env && ValidEnvName(k)
    ensures PrintAll(CdParts(cwd) + ExportParts(keys, env), (if cwd == "" then [] else [["cd", cwd]]) + Exports(keys, env))
  {
    var parts, cmds := ExportParts(keys, env), Exports(keys, env);
    ExportPartsPrint(keys, env);
    if cwd == "" {
      assert [] + parts == parts && [] + cmds == cmds;
    } else {
      CdPrints(cwd);
      PrintFirst("cd " + ShellQuote(cwd), ["cd", cwd], parts, cmds);
    }
  }

  /** The printed parts, joined, read back as the plan. */
  lemma PartsRead(t: Target, opts: ExecOptions, keys: seq<string>)
    requires forall k | k in keys :: k in MergedEnv(t, opts) && ValidEnvName(k)
    ensures ReadAndList(Join(CdParts(EffectiveCwd(t, opts)) + ExportParts(keys, MergedEnv(t, opts)) + [Print(opts)], " && "))
         == Some(Plan(t, opts, keys))
  {
    var cwd, env := EffectiveCwd(t, opts), MergedEnv(t, opts);
    var parts, cmds := CdParts(cwd) + ExportParts(keys, env), (if cwd == "" then [] else [["cd", cwd]]) + Exports(keys, env);
    SetupPrints(cwd, keys, env);
    FinalPrints(opts);
    PrintMore(parts, cmds, Print(opts), FinalCommand(opts));
    JoinedCommandsRead(parts + [Print(opts)], cmds + [FinalCommand(opts)]);
  }

  lemma {:induction false} PickTokens(parts: seq<string>, cmds: seq<SimpleCommand>) returns (groups: seq<seq<Token>>)
    requires PrintAll(parts, cmds)
    ensures |groups| == |parts|
    ensures AllAdd(parts, groups) && forall i | 0 <= i < |parts| :: CommandTokens(groups[i], cmds[i])
  {
    if parts == [] {
      groups := [];
    } else {
      var toks :| CommandTokens(toks, cmds[0]) && Adds(parts[0], toks);
      var rest := PickTokens(parts[1..], cmds[1..]);
      groups := [toks] + rest;
      assert groups[1..] == rest;
    }
  }

  // -------------------------------------------------- what the plan means

  /** The environment after running the commands: "export NAME=VALUE" assigns
      (2.14, export), the others leave it alone. */
  function EnvAfter(cmds: seq<SimpleCommand>, env: map<string, string>): map<string, string> {
    if cmds == [] then env else EnvAfter(cmds[1..], Assign(cmds[0], env))
  }

  function Assign(cmd: SimpleCommand, env: map<string, string>): map<string, string> {
    if |cmd| == 2 && cmd[0] == "export" && Index(cmd[1], "=").Some? then
      var i := Index(cmd[1], "=").value;
      env[cmd[1][..i] := cmd[1][i + 1..]]
    else env
  }

  lemma {:induction false} EnvAfterConcat(a: seq<SimpleCommand>, b: seq<SimpleCommand>, env: map<string, string>)
    ensures EnvAfter(a + b, env) == EnvAfter(b, EnvAfter(a, env))
  {
    if a == [] {
      assert a + b == b;
    } else {
      assert (a + b)[1..] == a[1..] + b;
      EnvAfterConcat(a[1..], b, Assign(a[0], env));
    }
  }

  lemma AssignExport(k: string, v: string, env: map<string, string>)
    requires ValidEnvName(k)
    ensures Assign(["export", k + "=" + v], env) == env[k := v]
  {
    var w := k + "=" + v;
    assert '=' !in k;
    FirstChar(k, '=', v);
    assert w[..|k|] == k && w[|k| + 1..] == v;
  }

  lemma {:induction false} EnvAfterExports(keys: seq<string>, merged: map<string, string>, env: map<string, string>)
    requires forall k | k in keys :: k in merged && ValidEnvName(k)
    ensures EnvAfter(Exports(keys, merged), env) == env + (map k | k in keys :: merged[k])
  {
    if keys == [] {
      assert env + (map k | k in keys :: merged[k]) == env;
    } else {
      assert keys[0] in keys && forall k | k in keys[1..] :: k in keys;
      AssignExport(keys[0], merged[keys[0]], env);
      EnvAfterExports(keys[1..], merged, env[keys[0] := merged[keys[0]]]);
      FirstExportApart(keys, merged, env);
    }
  }

  lemma FirstExportApart(keys: seq<string>, merged: map<string, string>, env: map<string, string>)
    requires keys != [] && forall k | k in keys :: k in merged
    ensures forall k | k in keys[1..] :: k in keys
    ensures env[keys[0] := merged[keys[0]]] + (map k | k in keys[1..] :: merged[k]) == env + (map k | k in keys :: merged[k])
  {
    assert keys == [keys[0]] + keys[1..];
  }

  lemma EnvAfterOther(cmd: SimpleCommand, env: map<string, string>)
    requires |cmd| != 2 || cmd[0] != "export"
    ensures EnvAfter([cmd], env) == env
  {
    assert [cmd][1..] == [];
  }

  /** Running the plan exports the target's variables overridden by the
      call's, over whatever was set before. */
  lemma PlanMeaning(t: Target, opts: ExecOptions, names: seq<string>, base: map<string, string>)
    requires forall k :: k in names <==> k in MergedEnv(t, opts)
    requires forall k | k in MergedEnv(t, opts) :: ValidEnvName(k)
    ensures EnvAfter(Plan(t, opts, names), base) == base + MergedEnv(t, opts)
  {
    var merged, cwd := MergedEnv(t, opts), EffectiveCwd(t, opts);
    var cd := if cwd == "" then [] else [["cd", cwd]];
    var exports := Exports(names, merged);
    EnvAfterConcat(cd + exports, [FinalCommand(opts)], base);
    EnvAfterConcat(cd, exports, base);
    if cwd != "" { EnvAfterOther(["cd", cwd], base); }
    EnvAfterExports(names, merged, base);
    assert (map k | k in names :: merged[k]) == merged;
    EnvAfterOther(FinalCommand(opts), base + merged);
  }

  /** The plan, command by command, said of the target and the call alone. */
  lemma PlanExactly(t: Target, opts: ExecOptions, names: seq<string>)
    requires forall k | k in names :: k in t.env || k in opts.env
    ensures var cmds := Plan(t, opts, names);
            && |cmds| == (if opts.cwd == "" && t.workDir == "" then 0 else 1) + |names| + 1
            && (opts.cwd != "" ==> cmds[0] == ["cd", opts.cwd])
            && (opts.cwd == "" && t.workDir != "" ==> cmds[0] == ["cd", t.workDir])
            && (forall i | 0 <= i < |names| ::
                  cmds[|cmds| - 1 - |names| + i]
                  == ["export", names[i] + "=" + (if names[i] in opts.env then opts.env[names[i]] else t.env[names[i]])])
            && cmds[|cmds| - 1] == (if opts.privileged then ["sudo", "-n", "--", "/bin/sh", "-lc", opts.command]
                                    else ["/bin/sh", "-lc", opts.command])
  {
    ExportsAt(names, MergedEnv(t, opts));
  }

  lemma {:induction false} ExportsAt(keys: seq<string>, env: map<string, string>)
    requires forall k | k in keys :: k in env
    ensures |Exports(keys, env)| == |keys|
    ensures forall i | 0 <= i < |keys| :: Exports(keys, env)[i] == ["export", keys[i] + "=" + env[keys[i]]]
  {
    if keys != [] {
      ExportsAt(keys[1..], env);
    }
  }

  /** What the remote command finds in its environment: a name the call sets
      has the call's value, another name the target sets has the target's, and
      any other is as it was. */
  lemma EnvironmentOfCommand(t: Target, opts: ExecOptions, names: seq<string>, base: map<string, string>)
    requires forall k :: k in names <==> k in t.env || k in opts.env
    requires forall k | k in names :: ValidEnvName(k)
    ensures var after := EnvAfter(Plan(t, opts, names), base);
            && after.Keys == base.Keys + t.env.Keys + opts.env.Keys
            && (forall k | k in opts.env :: after[k] == opts.env[k])
            && (forall k | k in t.env && k !in opts.env :: after[k] == t.env[k])
            && (forall k | k in base && k !in t.env && k !in opts.env :: after[k] == base[k])
  {
    PlanMeaning(t, opts, names, base);
  }

  /** Nothing of a request is lost in the line: requests with the same plan
      run in the same directory, environment and privilege, the same command. */
  lemma PlanInjective(t1: Target, o1: ExecOptions, n1: seq<string>, t2: Target, o2: ExecOptions, n2: seq<string>)
    requires forall k :: k in n1 <==> k in MergedEnv(t1, o1)
    requires forall k :: k in n2 <==> k in MergedEnv(t2, o2)
    requires forall k | k in MergedEnv(t1, o1) :: ValidEnvName(k)
    requires forall k | k in MergedEnv(t2, o2) :: ValidEnvName(k)
    requires Plan(t1, o1, n1) == Plan(t2, o2, n2)
    ensures EffectiveCwd(t1, o1) == EffectiveCwd(t2, o2) && MergedEnv(t1, o1) == MergedEnv(t2, o2)
    ensures o1.command == o2.command && o1.privileged == o2.privileged
  {
    assert MergedEnv(t1, o1) == MergedEnv(t2, o2) by {
      PlanMeaning(t1, o1, n1, map[]);
      PlanMeaning(t2, o2, n2, map[]);
      EmptyPlus(MergedEnv(t1, o1));
      EmptyPlus(MergedEnv(t2, o2));
    }
    PlanHead(t1, o1, n1);
    PlanHead(t2, o2, n2);
    PlanLast(t1, o1, n1);
    PlanLast(t2, o2, n2);
    FinalCommandInjective(o1, o2);
  }

  lemma EmptyPlus(m: map<string, string>)
    ensures map[] + m == m
  {
  }

  lemma PlanLast(t: Target, opts: ExecOptions, names: seq<string>)
    requires forall k | k in names :: k in MergedEnv(t, opts)
    ensures var plan := Plan(t, opts, names); plan[|plan| - 1] == FinalCommand(opts)
  {
  }

  lemma FinalCommandInjective(o1: ExecOptions, o2: ExecOptions)
    requires FinalCommand(o1) == FinalCommand(o2)
    ensures o1.command == o2.command && o1.privileged == o2.privileged
  {
    var f1, f2 := FinalCommand(o1), FinalCommand(o2);
    assert f1[|f1| - 1] == o1.command && f2[|f2| - 1] == o2.command;
  }

  lemma PlanHead(t: Target, opts: ExecOptions, names: seq<string>)
    requires forall k | k in names :: k in MergedEnv(t, opts)
    ensures var head := Plan(t, opts, names)[0];
            if EffectiveCwd(t, opts) == "" then head[0] in {"export", "/bin/sh", "sudo"}
            else head == ["cd", EffectiveCwd(t, opts)]
  {
  }
}
