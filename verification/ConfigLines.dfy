/**
 What the parser makes of any line of a file, told by the text of the line alone.
 */
module ConfigLines {
  import opened Common
  import opened ConfigText

  /** Space, tab, newline, vertical tab, form feed, carriage return. */
  predicate Blank(c: char) {
    c == ' ' || c as int in {9, 10, 11, 12, 13}
  }

  predicate AllBlank(s: string) {
    forall j | 0 <= j < |s| :: Blank(s[j])
  }

  /** Blanks and equal signs, at least one. */
  predicate Separates(s: string) {
    s != "" && forall j | 0 <= j < |s| :: Blank(s[j]) || s[j] == '='
  }

  /** The first character may be any but a blank or a hash sign, the others any but blanks and equal signs. */
  predicate Names(k: string) {
    k != "" && !Blank(k[0]) && k[0] != '#' && forall j | 1 <= j < |k| :: !Blank(k[j]) && k[j] != '='
  }

  /** A line INDENT NAME SEPARATOR "VALUE" TAIL. */
  ghost predicate Assigns(line: string, indent: string, name: string, sep: string, value: string, tail: string) {
    && line == indent + (name + (sep + ("\"" + (value + ("\"" + tail)))))
    && AllBlank(indent) && Names(name) && Separates(sep) && '"' !in value
  }

  /** What is in the buffer counts up to its first NUL. */
  ghost predicate IsLine(chunk: string, line: string) {
    '\0' !in line && line <= chunk && (|line| < |chunk| ==> chunk[|line|] == '\0')
  }

  lemma LineOf(chunk: string, line: string)
    requires IsLine(chunk, line)
    ensures CStr(chunk) == line
  {
    assert forall j | 0 <= j < |line| :: chunk[j] == line[j] && line[j] in line;
    FindIs(chunk, 0, IsNul, |line|);
  }

  lemma SkipIndent(line: string, indent: string, rest: string)
    requires line == indent + rest && AllBlank(indent) && (rest == "" || !Blank(rest[0]))
    ensures SkipSpace(line) == rest
  {
    assert forall j | 0 <= j < |indent| :: line[j] == indent[j];
    FindIs(line, 0, IsSolid, |indent|);
  }

  /** Where the parts are in what they make up. */
  lemma Layout(name: string, sep: string, value: string, tail: string, s: string, k: nat, q: nat, e: nat)
    requires s == name + (sep + ("\"" + (value + ("\"" + tail))))
    requires k == |name| && q == k + |sep| && e == q + 1 + |value|
    ensures e < |s| && s[q] == '"' && s[e] == '"' && s[..k] == name && s[k..q] == sep && s[q + 1..e] == value
    ensures forall j | 0 <= j < k :: s[j] == name[j]
    ensures forall j | k <= j < q :: s[j] == sep[j - k]
    ensures forall j | q + 1 <= j < e :: s[j] == value[j - q - 1]
  {
  }

  lemma TokensOf(s: string, name: string, sep: string, value: string, tail: string)
    requires s == name + (sep + ("\"" + (value + ("\"" + tail))))
    requires Names(name) && Separates(sep) && '"' !in value
    ensures Tokens(s) == Some(Var(name, value))
  {
    var k, q := |name|, |name| + |sep|;
    var e := q + 1 + |value|;
    Layout(name, sep, value, tail, s, k, q, e);
    forall j | q + 1 <= j < e
      ensures s[j] != '"'
    {
      assert value[j - q - 1] in value;
    }
    FindIs(s, 1, EndsKey, k);
    FindIs(s, k + 1, GoesOn, q);
    FindIs(s, q + 1, IsQuote, e);
  }

  /** Such a line of at most 768 characters is read as its name and value. */
  lemma AssignmentIsRead(chunk: string, line: string, indent: string, name: string, sep: string, value: string,
                         tail: string)
    requires IsLine(chunk, line) && Assigns(line, indent, name, sep, value, tail) && |line| <= 768
    ensures ParseLine(chunk) == Some(Var(name, value))
  {
    var rest := name + (sep + ("\"" + (value + ("\"" + tail))));
    LineOf(chunk, line);
    assert rest[0] == name[0];
    SkipIndent(line, indent, rest);
    TokensOf(rest, name, sep, value, tail);
  }

  lemma Pieces(s: string, k: nat, q: nat, e: nat)
    requires k <= q < e < |s| && s[q] == '"' && s[e] == '"'
    ensures s == s[..k] + (s[k..q] + ("\"" + (s[q + 1..e] + ("\"" + s[e + 1..]))))
  {
  }

  lemma PiecesAreFit(s: string, k: nat, q: nat, e: nat)
    requires 0 < k < q < e < |s| && !IsSpace(s[0]) && s[0] != '#'
    requires (forall j | 1 <= j < k :: !EndsKey(s[j])) && (forall j | k <= j < q :: EndsKey(s[j]))
    requires forall j | q + 1 <= j < e :: s[j] != '"'
    ensures Names(s[..k]) && Separates(s[k..q]) && '"' !in s[q + 1..e]
  {
    assert forall j | 0 <= j < q - k :: s[k..q][j] == s[k + j];
  }

  lemma TokensAt(s: string) returns (k: nat, q: nat, e: nat)
    requires s != "" && Tokens(s).Some?
    ensures 0 < k < q < e < |s| && s[q] == '"' && s[e] == '"' && Tokens(s).value == Var(s[..k], s[q + 1..e])
    ensures forall j | 1 <= j < k :: !EndsKey(s[j])
    ensures forall j | k <= j < q :: EndsKey(s[j])
    ensures forall j | q + 1 <= j < e :: s[j] != '"'
  {
    k := Find(s, 1, EndsKey);
    q := Find(s, k + 1, GoesOn);
    e := Find(s, q + 1, IsQuote);
  }

  lemma TokensHaveShape(s: string) returns (sep: string, tail: string)
    requires s != "" && !IsSpace(s[0]) && s[0] != '#' && Tokens(s).Some?
    ensures var v := Tokens(s).value;
      && s == v.name + (sep + ("\"" + (v.value + ("\"" + tail))))
      && Names(v.name) && Separates(sep) && '"' !in v.value
  {
    var k, q, e := TokensAt(s);
    sep, tail := s[k..q], s[e + 1..];
    Pieces(s, k, q, e);
    PiecesAreFit(s, k, q, e);
  }

  /** And nothing else is read at all: empty lines, comments, longer lines and all others are skipped. */
  lemma OnlyAssignmentsAreRead(chunk: string) returns (line: string, indent: string, sep: string, tail: string)
    requires ParseLine(chunk).Some?
    ensures var v := ParseLine(chunk).value;
      IsLine(chunk, line) && Assigns(line, indent, v.name, sep, v.value, tail) && |line| <= 768
  {
    line := CStr(chunk);
    assert Find(chunk, 0, IsNul) == |line|;
    indent := IndentOf(line);
    sep, tail := TokensHaveShape(SkipSpace(line));
  }

  lemma IndentOf(line: string) returns (indent: string)
    ensures line == indent + SkipSpace(line) && AllBlank(indent)
  {
    indent := line[..Find(line, 0, IsSolid)];
  }

  /** The value is stored without the slashes at its end. */
  lemma StripIs(v: string, bare: string, slashes: string)
    requires v == bare + slashes && (forall j | 0 <= j < |slashes| :: slashes[j] == '/')
    requires bare == "" || bare[|bare| - 1] != '/'
    ensures Strip(v) == bare
  {
    var r := Strip(v);
    assert |bare| > 0 ==> v[|bare| - 1] == bare[|bare| - 1];
    assert forall j | |bare| <= j < |v| :: v[j] == slashes[j - |bare|];
    assert v[..|bare|] == bare;
  }

  /** How a line NAME="value" extends what has been read, if the name has at most 128 characters. */
  lemma LineAdds(vars: seq<Var>, chunk: string, line: string, indent: string, name: string, sep: string,
                 bare: string, slashes: string, tail: string)
    requires IsLine(chunk, line) && Assigns(line, indent, name, sep, bare + slashes, tail) && |line| <= 768
    requires forall j | 0 <= j < |slashes| :: slashes[j] == '/'
    requires bare == "" || bare[|bare| - 1] != '/'
    ensures AddLine(vars, chunk) == if |vars| < 50 && |name| <= 128 then vars + [Var(name, bare)] else vars
  {
    AssignmentIsRead(chunk, line, indent, name, sep, bare + slashes, tail);
    StripIs(bare + slashes, bare, slashes);
    assert |bare + slashes| <= |line|;
  }

  /** A file goes line by line, if the line and its newline have at most 769 characters ... */
  lemma LineByLine(line: string, rest: string, vars: seq<Var>)
    requires '\n' !in line && |line| < 769
    ensures ParseFrom(line + "\n" + rest, vars) == ParseFrom(rest, AddLine(vars, line + "\n"))
  {
    var t := line + "\n" + rest;
    assert forall j | 0 <= j < |line| :: t[j] == line[j] && line[j] in line;
    assert t[|line|] == '\n';
    FindIs(t, 0, IsNewline, |line|);
    assert ChunkLen(t) == |line| + 1;
    assert t[..|line| + 1] == line + "\n" && t[|line| + 1..] == rest;
  }

  lemma LastLine(line: string, vars: seq<Var>)
    requires '\n' !in line && 0 < |line| <= 769
    ensures ParseFrom(line, vars) == AddLine(vars, line)
  {
    assert forall j | 0 <= j < |line| :: line[j] in line;
    FindIs(line, 0, IsNewline, |line|);
    assert line[..|line|] == line && line[|line|..] == "";
  }

  /** ... but of a longer one 769 characters are skipped, or read up to a NUL; the rest is a line of its own. */
  lemma LongLineIsCut(start: string, rest: string, vars: seq<Var>)
    requires '\n' !in start && |start| == 769
    ensures ParseFrom(start + rest, vars) == ParseFrom(rest, AddLine(vars, start))
    ensures '\0' !in start ==> AddLine(vars, start) == vars
  {
    var t := start + rest;
    assert forall j | 0 <= j < 769 :: t[j] == start[j] && start[j] in start;
    assert ChunkLen(t) == 769;
    assert t[..769] == start && t[769..] == rest;
    if '\0' !in start {
      LineOf(start, start);
    }
  }
}
