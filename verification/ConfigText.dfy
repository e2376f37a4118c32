/**
 The text of a configuration file: lines NAME="value", read by a tokeniser in chunks of a
 fixed buffer and written back one variable a line.
 */
module ConfigText {
  import opened Common

  const LINE_SIZE: nat := 768
  const MAX_VAR_NUM: nat := 50
  const MAX_VAR_NAME_LEN: nat := 128
  const MAX_VAR_VALUE_LEN: nat := 1024

  datatype Var = Var(name: string, value: string)

  /** `isspace` */
  predicate IsSpace(c: char) {
    c == ' ' || 9 <= c as int <= 13
  }

  predicate EndsKey(c: char) {
    IsSpace(c) || c == '='
  }

  predicate GoesOn(c: char) {
    !EndsKey(c)
  }

  predicate IsSolid(c: char) {
    !IsSpace(c)
  }

  predicate IsQuote(c: char) {
    c == '"'
  }

  predicate IsNul(c: char) {
    c == '\0'
  }

  predicate IsNewline(c: char) {
    c == '\n'
  }

  // ----- Searching -----

  /** The first place from `i` on where `p` holds, or the end. */
  function Find(s: string, i: nat, p: char -> bool): (n: nat)
    requires i <= |s|
    ensures i <= n <= |s| && (n < |s| ==> p(s[n])) && forall j | i <= j < n :: !p(s[j])
    decreases |s| - i
  {
    if i == |s| || p(s[i]) then i else Find(s, i + 1, p)
  }

  lemma FindIs(s: string, i: nat, p: char -> bool, n: nat)
    requires i <= n <= |s| && (n < |s| ==> p(s[n])) && forall j | i <= j < n :: !p(s[j])
    ensures Find(s, i, p) == n
  {
  }

  /** The string before its first NUL. */
  function CStr(s: string): (r: string)
    ensures |r| <= |s| && r == s[..|r|] && '\0' !in r
  {
    s[..Find(s, 0, IsNul)]
  }

  function SkipSpace(s: string): (r: string)
    ensures r != "" ==> !IsSpace(r[0])
  {
    s[Find(s, 0, IsSolid)..]
  }

  /** `remove_trailing_chars(value, '/')` */
  function Strip(v: string): (r: string)
    ensures |r| <= |v| && r == v[..|r|] && (r != "" ==> r[|r| - 1] != '/')
    ensures forall j | |r| <= j < |v| :: v[j] == '/'
  {
    if v != "" && v[|v| - 1] == '/' then Strip(v[..|v| - 1]) else v
  }

  // ----- Reading -----

  /** `get_key` on a line that starts with its key: the first character is part of it, whatever it is. */
  function Tokens(s: string): (r: Option<Var>)
    requires s != ""
    ensures r.Some? ==> 0 < |r.value.name| < |s| && r.value.name == s[..|r.value.name|]
    ensures r.Some? ==> forall j | 1 <= j < |r.value.name| :: !EndsKey(s[j])
  {
    var k := Find(s, 1, EndsKey);
    if k == |s| then None
    else
      var q := Find(s, k + 1, GoesOn);
      if q == |s| || s[q] != '"' then None
      else
        var e := Find(s, q + 1, IsQuote);
        if e == |s| then None else Some(Var(s[..k], s[q + 1..e]))
  }

  /** One buffer of text: nothing for a long, empty, comment or malformed line. */
  function ParseLine(chunk: string): Option<Var> {
    var line := CStr(chunk);
    var s := SkipSpace(line);
    if |line| > LINE_SIZE || s == "" || s[0] == '#' then None else Tokens(s)
  }

  function AddLine(vars: seq<Var>, chunk: string): seq<Var> {
    match ParseLine(chunk)
    case None => vars
    case Some(v) =>
      if |vars| >= MAX_VAR_NUM || |v.name| > MAX_VAR_NAME_LEN || |v.value| > MAX_VAR_VALUE_LEN then vars
      else vars + [Var(v.name, Strip(v.value))]
  }

  /** What `fgets` takes into a buffer of 770: a line with its newline, but at most 769 characters. */
  function ChunkLen(t: string): (n: nat)
    requires t != ""
    ensures 0 < n <= |t| && n <= LINE_SIZE + 1
    ensures forall j | 0 <= j < n - 1 :: t[j] != '\n'
    ensures n == |t| || n == LINE_SIZE + 1 || t[n - 1] == '\n'
  {
    var n := Find(t, 0, IsNewline);
    var line := if n < |t| then n + 1 else n;
    if line <= LINE_SIZE + 1 then line else LINE_SIZE + 1
  }

  function ParseFrom(t: string, vars: seq<Var>): seq<Var>
    decreases |t|
  {
    if t == "" then vars
    else ParseFrom(t[ChunkLen(t)..], AddLine(vars, t[..ChunkLen(t)]))
  }

  function Parse(t: string): seq<Var> {
    ParseFrom(t, [])
  }

  // ----- Writing -----

  function PrintLine(v: Var): string {
    v.name + "=\"" + v.value + "\"\n"
  }

  function Print(vars: seq<Var>): string {
    if vars == [] then "" else PrintLine(vars[0]) + Print(vars[1..])
  }

  // ----- Which variables survive -----

  /** A name that the tokeniser reads as one key. */
  predicate IsName(k: string) {
    && 0 < |k| <= MAX_VAR_NAME_LEN && k[0] != '#' && !IsSpace(k[0])
    && (forall j | 0 <= j < |k| :: k[j] != '\0')
    && forall j | 1 <= j < |k| :: !EndsKey(k[j])
  }

  predicate IsValue(v: string) {
    |v| <= MAX_VAR_VALUE_LEN && forall j | 0 <= j < |v| :: v[j] != '"' && v[j] != '\n' && v[j] != '\0'
  }

  predicate IsVar(v: Var) {
    IsName(v.name) && IsValue(v.value)
  }

  predicate NoSlash(v: Var) {
    v.value != "" ==> v.value[|v.value| - 1] != '/'
  }

  /** The printed line is short enough to be read. */
  predicate Fits(v: Var) {
    |PrintLine(v)| <= LINE_SIZE
  }

  /** The printed line fits the writer's own buffer. */
  predicate Printable(v: Var) {
    |PrintLine(v)| <= LINE_SIZE + 1
  }

  predicate AllWritable(vars: seq<Var>) {
    forall i | 0 <= i < |vars| :: IsVar(vars[i]) && Printable(vars[i])
  }

  predicate AllFit(vars: seq<Var>) {
    forall i | 0 <= i < |vars| :: Fits(vars[i])
  }

  predicate AllBare(vars: seq<Var>) {
    forall i | 0 <= i < |vars| :: NoSlash(vars[i])
  }

  /** The variables that come back, without trailing slashes. */
  function Kept(vars: seq<Var>): seq<Var> {
    if vars == [] then []
    else KeptOne(vars[0]) + Kept(vars[1..])
  }

  function KeptOne(v: Var): seq<Var> {
    if Fits(v) then [Var(v.name, Strip(v.value))] else []
  }

  // ----- Printed lines are read back -----

  lemma TokensOfLine(v: Var, tail: string)
    requires IsVar(v)
    ensures Tokens(v.name + "=\"" + v.value + "\"" + tail) == Some(v)
  {
    var s := v.name + "=\"" + v.value + "\"" + tail;
    var k, n := |v.name|, |v.value|;
    assert s[k] == '=' && s[k + 1] == '"' && s[k + 2 + n] == '"';
    assert s[..k] == v.name && s[k + 2..k + 2 + n] == v.value;
    forall j | 1 <= j < k
      ensures !EndsKey(s[j])
    {
      assert s[j] == v.name[j];
    }
    FindIs(s, 1, EndsKey, k);
    FindIs(s, k + 1, GoesOn, k + 1);
    forall j | k + 2 <= j < k + 2 + n
      ensures s[j] != '"'
    {
      assert s[j] == v.value[j - k - 2];
    }
    FindIs(s, k + 2, IsQuote, k + 2 + n);
  }

  lemma LineIsPlain(v: Var, s: string)
    requires IsVar(v) && s == PrintLine(v)
    ensures forall j | 0 <= j < |s| :: s[j] != '\0'
    ensures forall j | 0 <= j < |s| - 1 :: s[j] != '\n'
    ensures s[|s| - 1] == '\n' && s[0] == v.name[0]
  {
    var k := |v.name|;
    forall j | 0 <= j < |s| - 1
      ensures s[j] != '\0' && s[j] != '\n'
    {
      if j < k {
        assert s[j] == v.name[j];
      } else if k + 2 <= j < k + 2 + |v.value| {
        assert s[j] == v.value[j - k - 2];
      }
    }
  }

  lemma LineRoundTrip(v: Var)
    requires IsVar(v)
    ensures ParseLine(PrintLine(v)) == if Fits(v) then Some(v) else None
  {
    var s := PrintLine(v);
    LineIsPlain(v, s);
    FindIs(s, 0, IsNul, |s|);
    FindIs(s, 0, IsSolid, 0);
    assert CStr(s) == s && SkipSpace(s) == s;
    TokensOfLine(v, "\n");
    assert s == v.name + "=\"" + v.value + "\"" + "\n";
  }

  lemma ChunkOfLine(v: Var, rest: string)
    requires IsVar(v) && Printable(v)
    ensures var t := PrintLine(v) + rest;
      ChunkLen(t) == |PrintLine(v)| && t[..ChunkLen(t)] == PrintLine(v) && t[ChunkLen(t)..] == rest
  {
    var s, t := PrintLine(v), PrintLine(v) + rest;
    LineIsPlain(v, s);
    assert forall j | 0 <= j < |s| :: t[j] == s[j];
    FindIs(t, 0, IsNewline, |s| - 1);
  }

  lemma OneLine(v: Var, rest: string, acc: seq<Var>)
    requires IsVar(v) && Printable(v) && |acc| < MAX_VAR_NUM
    ensures ParseFrom(PrintLine(v) + rest, acc) == ParseFrom(rest, acc + KeptOne(v))
  {
    ChunkOfLine(v, rest);
    LineRoundTrip(v);
    assert AddLine(acc, PrintLine(v)) == acc + KeptOne(v);
  }

  lemma KeptFirst(vars: seq<Var>, acc: seq<Var>)
    requires vars != []
    ensures acc + Kept(vars) == (acc + KeptOne(vars[0])) + Kept(vars[1..])
  {
  }

  lemma {:induction false} PrintedIsRead(vars: seq<Var>, acc: seq<Var>)
    requires AllWritable(vars) && |acc| + |vars| <= MAX_VAR_NUM
    ensures ParseFrom(Print(vars), acc) == acc + Kept(vars)
    decreases |vars|
  {
    if vars == [] {
      assert acc + [] == acc;
    } else {
      OneLine(vars[0], Print(vars[1..]), acc);
      KeptFirst(vars, acc);
      PrintedIsRead(vars[1..], acc + KeptOne(vars[0]));
    }
  }

  /** Reading what was written gives the same variables in order, but for over-long lines and trailing slashes. */
  lemma WriteThenRead(vars: seq<Var>)
    requires AllWritable(vars) && |vars| <= MAX_VAR_NUM
    ensures Parse(Print(vars)) == Kept(vars)
    ensures Parse(Print(vars)) == vars <==> AllFit(vars) && AllBare(vars)
  {
    PrintedIsRead(vars, []);
    assert [] + Kept(vars) == Kept(vars);
    KeptIsAll(vars);
  }

  lemma KeptIsAll(vars: seq<Var>)
    ensures Kept(vars) == vars <==> AllFit(vars) && AllBare(vars)
  {
    KeptIs(vars);
    forall i | 0 <= i < |vars|
      ensures vars[i] == Var(vars[i].name, Strip(vars[i].value)) <==> NoSlash(vars[i])
    {
    }
  }

  lemma {:induction false} KeptIs(vars: seq<Var>)
    ensures |Kept(vars)| <= |vars| && (|Kept(vars)| == |vars| <==> AllFit(vars))
    ensures AllFit(vars) ==> forall i | 0 <= i < |vars| :: Kept(vars)[i] == Var(vars[i].name, Strip(vars[i].value))
  {
    if vars == [] {
    } else {
      KeptIs(vars[1..]);
      assert vars == [vars[0]] + vars[1..];
      assert AllFit(vars) <==> Fits(vars[0]) && AllFit(vars[1..]);
    }
  }

  // ----- What is read can be written -----

  lemma ReadIsVar(chunk: string)
    requires forall j | 0 <= j < |chunk| - 1 :: chunk[j] != '\n'
    requires ParseLine(chunk).Some?
    ensures var v := ParseLine(chunk).value;
      && (|v.name| <= MAX_VAR_NAME_LEN && |v.value| <= MAX_VAR_VALUE_LEN ==> IsVar(v))
      && |v.name| + |v.value| + 3 <= LINE_SIZE
  {
    var line := CStr(chunk);
    var s, v := SkipSpace(line), ParseLine(chunk).value;
    var off := |line| - |s|;
    assert forall j | 0 <= j < |s| :: s[j] == line[off + j] && line[off + j] in line && s[j] == chunk[off + j];
    ReadTokens(s);
  }

  lemma ReadTokens(s: string)
    requires s != "" && s[0] != '#' && !IsSpace(s[0]) && Tokens(s).Some?
    requires forall j | 0 <= j < |s| :: s[j] != '\0'
    requires forall j | 0 <= j < |s| - 1 :: s[j] != '\n'
    ensures var v := Tokens(s).value;
      && (|v.name| <= MAX_VAR_NAME_LEN && |v.value| <= MAX_VAR_VALUE_LEN ==> IsVar(v))
      && |v.name| + |v.value| + 3 <= |s|
  {
    var v := Tokens(s).value;
    var k := Find(s, 1, EndsKey);
    var q := Find(s, k + 1, GoesOn);
    assert v.name == s[..k] && v.value == s[q + 1..q + 1 + |v.value|];
    assert forall j | 0 <= j < k :: v.name[j] == s[j];
    assert forall j | 0 <= j < |v.value| :: v.value[j] == s[q + 1 + j];
  }

  /** What a variable is when it has been read: writable, without trailing slash, and at most one character too long. */
  predicate IsRead(v: Var) {
    IsVar(v) && NoSlash(v) && Printable(v)
  }

  predicate AllRead(vars: seq<Var>) {
    forall i | 0 <= i < |vars| :: IsRead(vars[i])
  }

  lemma AddedIsRead(chunk: string)
    requires forall j | 0 <= j < |chunk| - 1 :: chunk[j] != '\n'
    requires var r := ParseLine(chunk);
      r.Some? && |r.value.name| <= MAX_VAR_NAME_LEN && |r.value.value| <= MAX_VAR_VALUE_LEN
    ensures var v := ParseLine(chunk).value;
      IsRead(Var(v.name, Strip(v.value)))
  {
    ReadIsVar(chunk);
  }

  lemma AddLineReads(vars: seq<Var>, chunk: string)
    requires AllRead(vars) && |vars| <= MAX_VAR_NUM
    requires forall j | 0 <= j < |chunk| - 1 :: chunk[j] != '\n'
    ensures AllRead(AddLine(vars, chunk)) && |AddLine(vars, chunk)| <= MAX_VAR_NUM
  {
    if AddLine(vars, chunk) != vars {
      AddedIsRead(chunk);
    }
  }

  lemma {:induction false} ReadIsWritable(t: string, vars: seq<Var>)
    requires AllRead(vars) && |vars| <= MAX_VAR_NUM
    ensures AllRead(ParseFrom(t, vars)) && |ParseFrom(t, vars)| <= MAX_VAR_NUM
    decreases |t|
  {
    if t == "" {
    } else {
      var n := ChunkLen(t);
      AddLineReads(vars, t[..n]);
      ReadIsWritable(t[n..], AddLine(vars, t[..n]));
    }
  }

  /**
   Any file at all: writing back what was read and reading it again gives the same variables, exactly
   if the rewritten lines have at most 768 characters.
   */
  lemma ReadWriteRead(t: string)
    ensures var vars := Parse(t);
      && Parse(Print(vars)) == Kept(vars)
      && (Parse(Print(vars)) == vars <==> AllFit(vars))
  {
    var vars := Parse(t);
    ReadIsWritable(t, []);
    forall i | 0 <= i < |vars|
      ensures IsVar(vars[i]) && Printable(vars[i]) && NoSlash(vars[i])
    {
      assert IsRead(vars[i]);
    }
    WriteThenRead(vars);
  }

  /** The limit is reached: a last line of 768 characters without a newline is read, but not once written back. */
  lemma OneTooLong(v: Var)
    requires IsVar(v) && NoSlash(v) && |PrintLine(v)| == LINE_SIZE + 1
    ensures var t := PrintLine(v)[..LINE_SIZE];
      Parse(t) == [v] && Parse(Print([v])) == []
  {
    var t := PrintLine(v)[..LINE_SIZE];
    LastLineIsRead(v, t);
    var rest := t[ChunkLen(t)..];
    assert rest == "" && ParseFrom(rest, [v]) == [v];
    WriteThenRead([v]);
    assert [v][1..] == [] && Kept([v]) == [];
  }

  lemma LastLineIsRead(v: Var, t: string)
    requires IsVar(v) && NoSlash(v) && |PrintLine(v)| == LINE_SIZE + 1 && t == PrintLine(v)[..LINE_SIZE]
    ensures t != "" && ChunkLen(t) == |t| && AddLine([], t[..|t|]) == [v]
  {
    LineIsPlain(v, PrintLine(v));
    assert forall j | 0 <= j < |t| :: t[j] == PrintLine(v)[j];
    FindIs(t, 0, IsNewline, |t|);
    FindIs(t, 0, IsNul, |t|);
    FindIs(t, 0, IsSolid, 0);
    assert t[..|t|] == t && t[0..] == t;
    assert t == v.name + "=\"" + v.value + "\"" + "";
    TokensOfLine(v, "");
  }
}
