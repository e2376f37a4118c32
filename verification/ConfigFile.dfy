/**
 The configuration in memory and on disk: parsing into two parallel arrays, lookups that ignore
 case, and updates that go through a backup array to the file.
 */
module ConfigFile {
  import opened Common
  import opened ConfigText

  /** The tables, the copy to be written (if updates are wanted), and the text of the file. */
  datatype Config = Config(names: seq<string>, values: seq<string>, backup: Option<seq<string>>, file: string)

  function Lower(c: char): char {
    if 'A' <= c <= 'Z' then (c as int + 32) as char else c
  }

  /** `strcasecmp(a, b) == 0` */
  predicate EqNoCase(a: string, b: string) {
    |a| == |b| && forall i | 0 <= i < |a| :: Lower(a[i]) == Lower(b[i])
  }

  /** The first variable of that name. */
  function IndexOf(names: seq<string>, name: string, i: nat): (r: Option<nat>)
    requires i <= |names|
    ensures r.Some? ==> i <= r.value < |names| && EqNoCase(names[r.value], name)
    ensures r.Some? ==> forall j | i <= j < r.value :: !EqNoCase(names[j], name)
    ensures r.None? ==> forall j | i <= j < |names| :: !EqNoCase(names[j], name)
    decreases |names| - i
  {
    if i == |names| then None
    else if EqNoCase(names[i], name) then Some(i)
    else IndexOf(names, name, i + 1)
  }

  function Zip(names: seq<string>, values: seq<string>): (vars: seq<Var>)
    requires |names| == |values|
    ensures |vars| == |names| && forall i | 0 <= i < |vars| :: vars[i] == Var(names[i], values[i])
  {
    seq(|names|, i requires 0 <= i < |names| => Var(names[i], values[i]))
  }

  ghost predicate Sized(c: Config) {
    |c.values| == |c.names| && (c.backup.Some? ==> |c.backup.value| == |c.names|)
  }

  /** What the file is written from. */
  function ToWrite(c: Config): seq<Var>
    requires Sized(c)
  {
    Zip(c.names, if c.backup.Some? then c.backup.value else c.values)
  }

  function Lookup(c: Config, name: string): Option<string>
    requires Sized(c)
  {
    var i := IndexOf(c.names, name, 0);
    if i.Some? then Some(c.values[i.value]) else None
  }

  /** `write_to_config_file`, which works or fails as the file system has it. */
  function Written(c: Config, works: bool): Config
    requires Sized(c)
  {
    if works then c.(file := Print(ToWrite(c))) else c
  }

  /** `set_config_var`; the flag is its success. */
  function Set(c: Config, name: string, value: string, works: bool): (r: (Config, bool))
    requires Sized(c)
  {
    match IndexOf(c.names, name, 0)
    case None => (c, false)
    case Some(i) =>
      if c.backup.None? then (c.(values := c.values[i := value]), true)
      else
        var c1 := c.(backup := Some(c.backup.value[i := value]));
        if works then (Written(c1, true).(values := c.values[i := value]), true)
        else (c.(backup := Some(c.backup.value[i := c.values[i]])), false)
  }

  /** `set_config_var2`: a change that waits for the next write. */
  function SetPending(c: Config, name: string, value: string): (r: (Config, bool))
    requires Sized(c) && c.backup.Some?
  {
    match IndexOf(c.names, name, 0)
    case None => (c, false)
    case Some(i) => (c.(backup := Some(c.backup.value[i := value])), true)
  }

  /** Nothing waits to be written. */
  predicate Synced(c: Config) {
    c.backup.Some? ==> c.backup.value == c.values
  }

  /** What was read from `text`. */
  function Loaded(text: string, needUpdate: bool): (c: Config)
    ensures Sized(c) && Synced(c) && c.file == text && c.backup.Some? == needUpdate
    ensures Zip(c.names, c.values) == Parse(text)
  {
    var vars := Parse(text);
    var names, values := NamesOf(vars), ValuesOf(vars);
    assert Zip(names, values) == vars;
    Config(names, values, if needUpdate then Some(values) else None, text)
  }

  function NamesOf(vars: seq<Var>): (r: seq<string>)
    ensures |r| == |vars| && forall i | 0 <= i < |vars| :: r[i] == vars[i].name
  {
    seq(|vars|, i requires 0 <= i < |vars| => vars[i].name)
  }

  function ValuesOf(vars: seq<Var>): (r: seq<string>)
    ensures |r| == |vars| && forall i | 0 <= i < |vars| :: r[i] == vars[i].value
  {
    seq(|vars|, i requires 0 <= i < |vars| => vars[i].value)
  }

  /** Characters are the same up to case exactly if they are the same or the same letter. */
  lemma CaseIs(c: char, d: char)
    ensures Lower(c) == Lower(d) <==>
      || c == d
      || ('A' <= c <= 'Z' && d as int - 'a' as int == c as int - 'A' as int)
      || ('A' <= d <= 'Z' && c as int - 'a' as int == d as int - 'A' as int)
  {
  }

  /** A lookup gives the value of the first variable of that name, and nothing exactly if there is none. */
  lemma LookupIs(c: Config, name: string, i: nat)
    requires Sized(c)
    ensures Lookup(c, name) == None <==> forall j | 0 <= j < |c.names| :: !EqNoCase(c.names[j], name)
    ensures i < |c.names| && EqNoCase(c.names[i], name) && (forall j | 0 <= j < i :: !EqNoCase(c.names[j], name)) ==>
      Lookup(c, name) == Some(c.values[i])
  {
  }

  /** An update succeeds exactly if there is such a variable and, with a backup to write, the file could be written. */
  lemma SetSucceedsIff(c: Config, name: string, value: string, works: bool)
    requires Sized(c)
    ensures Set(c, name, value, works).1 <==> Lookup(c, name).Some? && (c.backup.Some? ==> works)
    ensures c.backup.Some? ==> (SetPending(c, name, value).1 <==> Lookup(c, name).Some?)
  {
  }

  // ----- What updates do -----

  lemma EqNoCaseSame(n: string, a: string, b: string)
    requires EqNoCase(a, b)
    ensures EqNoCase(n, a) <==> EqNoCase(n, b)
  {
    if |n| == |a| {
      assert forall i | 0 <= i < |n| :: (Lower(n[i]) == Lower(a[i])) == (Lower(n[i]) == Lower(b[i]));
    }
  }

  lemma {:induction false} SameIndex(names: seq<string>, a: string, b: string, i: nat)
    requires EqNoCase(a, b) && i <= |names|
    ensures IndexOf(names, a, i) == IndexOf(names, b, i)
    decreases |names| - i
  {
    if i == |names| {
    } else {
      EqNoCaseSame(names[i], a, b);
      SameIndex(names, a, b, i + 1);
    }
  }

  /** After a successful update every spelling of the name finds the new value, and other names the old one. */
  lemma SetThenGet(c: Config, name: string, value: string, works: bool, other: string)
    requires Sized(c) && Set(c, name, value, works).1
    ensures Sized(Set(c, name, value, works).0)
    ensures EqNoCase(name, other) ==> Lookup(Set(c, name, value, works).0, other) == Some(value)
    ensures IndexOf(c.names, other, 0) != IndexOf(c.names, name, 0) ==>
      Lookup(Set(c, name, value, works).0, other) == Lookup(c, other)
  {
    SetFields(c, name, value, works);
    if EqNoCase(name, other) {
      SameIndex(c.names, name, other, 0);
    }
  }

  lemma SetFields(c: Config, name: string, value: string, works: bool)
    requires Sized(c) && Set(c, name, value, works).1
    ensures var (c', i) := (Set(c, name, value, works).0, IndexOf(c.names, name, 0));
      Sized(c') && c'.names == c.names && i.Some? && c'.values == c.values[i.value := value]
  {
  }

  /** An update of a table in step with its backup keeps it in step, whether or not the file could be written. */
  lemma SetKeepsSync(c: Config, name: string, value: string, works: bool)
    requires Sized(c) && Synced(c)
    ensures Sized(Set(c, name, value, works).0) && Synced(Set(c, name, value, works).0)
    ensures !Set(c, name, value, works).1 ==> Set(c, name, value, works).0 == c
  {
    var i := IndexOf(c.names, name, 0);
    if i.Some? {
      assert c.values[i.value := c.values[i.value]] == c.values;
    }
  }

  /**
   A failed update puts back the value in use, not the value that waited to be written: the tables
   are as before exactly if nothing waited under that name.
   */
  lemma FailedSetRestoresIff(c: Config, name: string, value: string)
    requires Sized(c) && c.backup.Some? && IndexOf(c.names, name, 0).Some?
    ensures !Set(c, name, value, false).1
    ensures var i := IndexOf(c.names, name, 0).value;
      Set(c, name, value, false).0 == c <==> c.backup.value[i] == c.values[i]
  {
    var i := IndexOf(c.names, name, 0).value;
    var b := c.backup.value;
    assert b[i := c.values[i]] == b <==> b[i] == c.values[i] by {
      assert b[i := c.values[i]][i] == c.values[i];
      assert b[i] == c.values[i] ==> b[i := c.values[i]] == b;
    }
  }

  /** A file of one line, `K="a"`. */
  lemma OneLinePrinted()
    ensures Print([Var("K", "a")]) == "K=\"a\"\n"
  {
    var vars := [Var("K", "a")];
    assert PrintLine(vars[0]) == "K=\"a\"\n" && vars[1..] == [];
  }

  lemma OneLineRead()
    ensures Parse("K=\"a\"\n") == [Var("K", "a")]
  {
    var vars := [Var("K", "a")];
    assert IsName("K") && IsValue("a") && |PrintLine(vars[0])| == 6;
    OneLinePrinted();
    WriteThenRead(vars);
  }

  lemma LoadedOne()
    ensures var c := Loaded("K=\"a\"\n", true);
      c.names == ["K"] && c.values == ["a"] && c.backup == Some(["a"])
  {
    OneLineRead();
  }

  /** A pending change to a file just read that a failed update forgets. */
  lemma PendingIsLost()
    ensures var pending := SetPending(Loaded("K=\"a\"\n", true), "K", "b").0;
      pending.backup == Some(["b"]) && Set(pending, "k", "c", false).0.backup == Some(["a"])
  {
    LoadedOne();
    assert EqNoCase("K", "K") && EqNoCase("K", "k");
    assert IndexOf(["K"], "K", 0) == Some(0) && IndexOf(["K"], "k", 0) == Some(0);
    assert ["a"][0 := "b"] == ["b"] && ["b"][0 := "a"] == ["a"];
  }

  // ----- The tokeniser in its buffer -----

  /** The C string at `p`. */
  function StrAt(line: seq<char>, p: nat): string
    requires p <= |line|
  {
    CStr(line[p..])
  }

  lemma StrIs(line: seq<char>, p: nat, s: string)
    requires p + |s| < |line| && NoNul(s) && line[p..p + |s|] == s && line[p + |s|] == '\0'
    ensures StrAt(line, p) == s
  {
    var u := line[p..];
    assert forall j | 0 <= j < |s| :: u[j] == line[p..p + |s|][j];
    FindIs(u, 0, IsNul, |s|);
    assert u[..|s|] == s;
  }

  /** The line from `p` on is still the text, which a NUL ends. */
  ghost predicate Holds(line: seq<char>, s: string, p: nat) {
    && p <= |s| < |line| && NoNul(s) && line[|s|] == '\0'
    && forall j | p <= j < |s| :: line[j] == s[j]
  }

  method SkipKey(line: array<char>, p: nat, ghost s: string) returns (k: nat)
    requires Holds(line[..], s, p)
    ensures p <= k <= |s| && Holds(line[..], s, k)
    ensures k == Find(s, p, EndsKey) && line[k] == if k < |s| then s[k] else '\0'
  {
    k := p;
    while line[k] != '\0' && !EndsKey(line[k])
      invariant p <= k <= |s| && Holds(line[..], s, k) && line[k] == line[..][k]
      invariant forall j | p <= j < k :: !EndsKey(s[j])
      decreases |s| - k
    {
      k := k + 1;
    }
    FindIs(s, p, EndsKey, k);
  }

  method SkipSeparators(line: array<char>, p: nat, ghost s: string) returns (q: nat)
    requires Holds(line[..], s, p)
    ensures q == Find(s, p, GoesOn) && line[q] == if q < |s| then s[q] else '\0'
  {
    q := p;
    while line[q] != '\0' && EndsKey(line[q])
      invariant p <= q <= |s| && Holds(line[..], s, q) && line[q] == line[..][q]
      invariant forall j | p <= j < q :: EndsKey(s[j])
      decreases |s| - q
    {
      q := q + 1;
    }
    FindIs(s, p, GoesOn, q);
  }

  /** `strchr(linepos, '"')` */
  method FindQuote(line: array<char>, p: nat, ghost s: string) returns (e: nat)
    requires Holds(line[..], s, p)
    ensures e == Find(s, p, IsQuote) && line[e] == if e < |s| then s[e] else '\0'
  {
    e := p;
    while line[e] != '\0' && line[e] != '"'
      invariant p <= e <= |s| && Holds(line[..], s, e) && line[e] == line[..][e]
      invariant forall j | p <= j < e :: s[j] != '"'
      decreases |s| - e
    {
      e := e + 1;
    }
    FindIs(s, p, IsQuote, e);
  }

  lemma TokensIs(s: string, k: nat, q: nat, e: nat)
    requires s != "" && k == Find(s, 1, EndsKey) && k < |s|
    requires q == Find(s, k + 1, GoesOn) && q < |s| && s[q] == '"' && e == Find(s, q + 1, IsQuote)
    ensures Tokens(s) == if e == |s| then None else Some(Var(s[..k], s[q + 1..e]))
  {
  }

  /** The value in quotes behind the key, cut out at its closing quote. */
  method CutValue(line: array<char>, k: nat, ghost s: string) returns (ok: bool, value: nat)
    requires s != "" && k == Find(s, 1, EndsKey) && k < |s| && Holds(line[..], s, k + 1)
    modifies line
    ensures ok == Tokens(s).Some? && line.Length > |s|
    ensures line[..k + 1] == old(line[..])[..k + 1]
    ensures ok ==> value < line.Length && StrAt(line[..], value) == Tokens(s).value.value
  {
    ghost var l := line[..];
    ok, value := false, 0;
    var q := SkipSeparators(line, k + 1, s);
    if line[q] == '\0' || line[q] != '"' {
      return;
    }
    value := q + 1;
    var e := FindQuote(line, q + 1, s);
    TokensIs(s, k, q, e);
    if line[e] == '\0' {
      return;
    }
    line[e] := '\0';
    ok := true;
    assert line[..] == l[e := '\0'];
    PieceIs(l, s, q + 1, e);
  }

  /** `get_key` on a line without leading white space: the key and the value are cut out in place. */
  method GetKey(line: array<char>, ghost s: string) returns (ok: bool, key: nat, value: nat)
    requires s != "" && !IsSpace(s[0]) && Holds(line[..], s, 0)
    modifies line
    ensures ok == Tokens(s).Some?
    ensures key <= line.Length && value <= line.Length
    ensures ok ==> Var(StrAt(line[..], key), StrAt(line[..], value)) == Tokens(s).value
  {
    ghost var l := line[..];
    ok, key, value := false, 0, 0;
    var k := SkipKey(line, 1, s);
    if line[k] == '\0' {
      return;
    }
    line[k] := '\0';
    assert line[..] == l[k := '\0'];
    PieceIs(l, s, 0, k);
    ok, value := CutValue(line, k, s);
    if ok {
      TokensIs(s, k, Find(s, k + 1, GoesOn), Find(s, Find(s, k + 1, GoesOn) + 1, IsQuote));
      SameStr(l[k := '\0'], line[..], k);
    } else {
      value := 0;
    }
  }

  /** A piece of the text that is cut off at `e`. */
  lemma PieceIs(l: seq<char>, s: string, p: nat, e: nat)
    requires Holds(l, s, p) && p <= e < |s|
    ensures StrAt(l[e := '\0'], p) == s[p..e]
  {
    assert l[e := '\0'][p..e] == s[p..e];
    StrIs(l[e := '\0'], p, s[p..e]);
  }

  /** The string at the start depends on nothing behind its NUL. */
  lemma SameStr(l: seq<char>, m: seq<char>, k: nat)
    requires k < |l| == |m| && l[..k + 1] == m[..k + 1] && l[k] == '\0'
    ensures StrAt(l, 0) == StrAt(m, 0)
  {
    var n := Find(l, 0, IsNul);
    assert forall j | 0 <= j <= k :: l[j] == l[..k + 1][j] && m[j] == m[..k + 1][j];
    assert l[0..] == l && m[0..] == m;
    FindIs(m, 0, IsNul, n);
    assert l[..n] == l[..k + 1][..n] && m[..n] == m[..k + 1][..n];
  }

  // ----- The configuration -----

  class ConfigStore {
    var names: seq<string>
    var values: seq<string>
    var backup: Option<seq<string>>
    var file: string

    ghost function View(): Config
      reads this
    {
      Config(names, values, backup, file)
    }

    constructor ()
      ensures View() == Config([], [], None, "")
    {
      names, values, backup, file := [], [], None, "";
    }

    /** One buffer of the file: skipped, or one more variable. */
    method ReadLine(chunk: string, ghost vars: seq<Var>)
      requires Sized(View()) && Zip(names, values) == vars && |vars| <= MAX_VAR_NUM && |chunk| <= LINE_SIZE + 1
      modifies this`names, this`values
      ensures Sized(View().(backup := None)) && Zip(names, values) == AddLine(vars, chunk)
    {
      var line := CStr(chunk);
      if |line| > LINE_SIZE {
        return;
      }
      var s := SkipSpace(line);
      if s == "" || s[0] == '#' {
        return;
      }
      var buf := new char[LINE_SIZE + 2](i requires 0 <= i < LINE_SIZE + 2 => if i < |s| then s[i] else '\0');
      assert NoNul(s) by {
        assert forall j | 0 <= j < |s| :: s[j] in line;
      }
      var ok, key, value := GetKey(buf, s);
      if !ok || |names| >= MAX_VAR_NUM {
        return;
      }
      AddVar(StrAt(buf[..], key), StrAt(buf[..], value));
    }

    method AddVar(variable: string, value: string)
      requires |names| == |values|
      modifies this`names, this`values
      ensures |names| == |values|
      ensures if |variable| > MAX_VAR_NAME_LEN || |value| > MAX_VAR_VALUE_LEN
              then Zip(names, values) == old(Zip(names, values))
              else Zip(names, values) == old(Zip(names, values)) + [Var(variable, Strip(value))]
    {
      if |variable| > MAX_VAR_NAME_LEN || |value| > MAX_VAR_VALUE_LEN {
        return;
      }
      names := names + [variable];
      values := values + [Strip(value)];
      assert Zip(names, values) == old(Zip(names, values)) + [Var(variable, Strip(value))];
    }

    /** `parse_config_file` after `free_config`. */
    method ParseConfigFile(text: string, needUpdate: bool)
      requires names == [] && values == [] && backup == None
      modifies this
      ensures View() == Loaded(text, needUpdate)
    {
      file := text;
      var rest := text;
      ghost var vars: seq<Var> := [];
      while rest != ""
        invariant |names| == |values| && backup == None && file == text && |vars| <= MAX_VAR_NUM
        invariant Zip(names, values) == vars && ParseFrom(rest, vars) == Parse(text)
        decreases |rest|
      {
        var n := ChunkLen(rest);
        ReadLine(rest[..n], vars);
        vars := AddLine(vars, rest[..n]);
        rest := rest[n..];
      }
      if needUpdate {
        backup := Some(values);
      }
      assert names == NamesOf(vars) && values == ValuesOf(vars);
    }

    method FindVar(name: string) returns (i: nat)
      ensures i <= |names| && IndexOf(names, name, 0) == if i < |names| then Some(i) else None
    {
      i := 0;
      while i < |names| && !EqNoCase(names[i], name)
        invariant i <= |names| && IndexOf(names, name, 0) == IndexOf(names, name, i)
      {
        i := i + 1;
      }
    }

    method GetConfigVar(name: string) returns (r: Option<string>)
      requires Sized(View())
      ensures r == Lookup(View(), name)
    {
      var i := FindVar(name);
      r := if i < |names| then Some(values[i]) else None;
    }

    /** Every line must fit the writer's buffer. */
    method WriteToConfigFile(works: bool) returns (ok: bool)
      requires Sized(View()) && forall i | 0 <= i < |names| :: Printable(ToWrite(View())[i])
      modifies this`file
      ensures View() == Written(old(View()), works) && ok == works
    {
      var toWrite := if backup.Some? then backup.value else values;
      var text := "";
      ghost var vars := ToWrite(View());
      for i := 0 to |names|
        invariant text == Print(vars[..i]) && file == old(file)
      {
        PrintSnoc(vars[..i], vars[i]);
        assert vars[..i + 1] == vars[..i] + [vars[i]];
        text := text + PrintLine(Var(names[i], toWrite[i]));
      }
      assert vars[..|names|] == vars;
      if !works {
        return false;
      }
      file := text;
      return true;
    }

    /** With a backup, the line of the variable that is found and all the others must fit the writer's buffer. */
    method SetConfigVar(name: string, value: string, works: bool) returns (ok: bool)
      requires Sized(View()) && |value| <= MAX_VAR_VALUE_LEN
      requires var i := IndexOf(names, name, 0);
        backup.Some? && i.Some? ==> forall j | 0 <= j < |names| ::
          Printable(if j == i.value then Var(names[j], value) else ToWrite(View())[j])
      modifies this
      ensures (View(), ok) == Set(old(View()), name, value, works)
    {
      var i := FindVar(name);
      if i >= |names| {
        return false;
      }
      var valueOld := values[i];
      if backup.None? {
        values := values[i := value];
        return true;
      }
      ghost var before := ToWrite(View());
      backup := Some(backup.value[i := value]);
      assert forall j | 0 <= j < |names| :: ToWrite(View())[j] == if j == i then Var(names[j], value) else before[j];
      var written := WriteToConfigFile(works);
      if !written {
        backup := Some(backup.value[i := valueOld]);
        assert backup.value == old(backup.value)[i := valueOld];
        return false;
      }
      values := values[i := value];
      return true;
    }

    method SetConfigVar2(name: string, value: string) returns (ok: bool)
      requires Sized(View()) && backup.Some? && |value| <= MAX_VAR_VALUE_LEN
      modifies this`backup
      ensures (View(), ok) == SetPending(old(View()), name, value)
    {
      var i := FindVar(name);
      if i >= |names| {
        return false;
      }
      backup := Some(backup.value[i := value]);
      return true;
    }
  }

  lemma {:induction false} PrintSnoc(vars: seq<Var>, v: Var)
    ensures Print(vars + [v]) == Print(vars) + PrintLine(v)
    decreases |vars|
  {
    if vars == [] {
      assert [v][1..] == [] && [] + [v] == [v];
    } else {
      assert (vars + [v])[1..] == vars[1..] + [v];
      PrintSnoc(vars[1..], v);
    }
  }
}
