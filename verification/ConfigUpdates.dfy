/**
 Any sequence of updates, of which some wait for the next write and some fail, and what a restart
 then finds in the file.
 */
module ConfigUpdates {
  import opened Common
  import opened ConfigText
  import opened ConfigFile

  /** A call of `set_config_var`, and whether the file could be written, or of `set_config_var2`. */
  datatype Update = Update(name: string, value: string, works: bool) | Later(name: string, value: string)

  function Apply(c: Config, u: Update): (r: Config)
    requires Sized(c) && c.backup.Some?
    ensures Sized(r) && r.names == c.names && r.backup.Some?
  {
    match u
    case Update(name, value, works) => Set(c, name, value, works).0
    case Later(name, value) => SetPending(c, name, value).0
  }

  function Applied(c: Config, ups: seq<Update>): (r: Config)
    requires Sized(c) && c.backup.Some?
    ensures Sized(r) && r.names == c.names && r.backup.Some?
    decreases |ups|
  {
    if ups == [] then c else Apply(Applied(c, ups[..|ups| - 1]), ups[|ups| - 1])
  }

  // ----- One variable at a time -----

  /** The call is about variable `i`. */
  predicate IsAbout(names: seq<string>, i: nat, u: Update) {
    IndexOf(names, u.name, 0) == Some(i)
  }

  /** The value of the last successful update, or else the first value. */
  function InUse(first: string, names: seq<string>, i: nat, ups: seq<Update>): string
    decreases |ups|
  {
    if ups == [] then first
    else
      var u, rest := ups[|ups| - 1], ups[..|ups| - 1];
      if IsAbout(names, i, u) && u.Update? && u.works then u.value else InUse(first, names, i, rest)
  }

  /** The value of the last update, unless that one failed: then the value in use. */
  function Waiting(first: string, names: seq<string>, i: nat, ups: seq<Update>): string
    decreases |ups|
  {
    if ups == [] then first
    else
      var u, rest := ups[|ups| - 1], ups[..|ups| - 1];
      if !IsAbout(names, i, u) then Waiting(first, names, i, rest)
      else if u.Later? || u.works then u.value
      else InUse(first, names, i, rest)
  }

  /** How many calls there are up to the last successful update. */
  function LastWrite(names: seq<string>, ups: seq<Update>): (n: nat)
    ensures n <= |ups|
    decreases |ups|
  {
    if ups == [] then 0
    else
      var u := ups[|ups| - 1];
      if u.Update? && u.works && IndexOf(names, u.name, 0).Some? then |ups| else LastWrite(names, ups[..|ups| - 1])
  }

  function AllInUse(c: Config, ups: seq<Update>): (r: seq<string>)
    requires Sized(c)
    ensures |r| == |c.names|
  {
    seq(|c.names|, i requires 0 <= i < |c.names| => InUse(c.values[i], c.names, i, ups))
  }

  function AllWaiting(c: Config, ups: seq<Update>): (r: seq<string>)
    requires Sized(c)
    ensures |r| == |c.names|
  {
    seq(|c.names|, i requires 0 <= i < |c.names| => Waiting(c.values[i], c.names, i, ups))
  }

  // ----- The tables follow -----

  lemma ApplyFields(c: Config, c0: Config, rest: seq<Update>, u: Update)
    requires Sized(c0) && Sized(c) && c.backup.Some? && c.names == c0.names
    requires c.values == AllInUse(c0, rest) && c.backup.value == AllWaiting(c0, rest)
    ensures Apply(c, u).values == AllInUse(c0, rest + [u])
    ensures Apply(c, u).backup.value == AllWaiting(c0, rest + [u])
    ensures Apply(c, u).file ==
      if u.Update? && u.works && IndexOf(c.names, u.name, 0).Some? then Print(Zip(c.names, Apply(c, u).backup.value))
      else c.file
  {
    var ups, c' := rest + [u], Apply(c, u);
    assert ups[..|ups| - 1] == rest && ups[|ups| - 1] == u;
    forall i | 0 <= i < |c.names|
      ensures c'.values[i] == InUse(c0.values[i], c.names, i, ups)
      ensures c'.backup.value[i] == Waiting(c0.values[i], c.names, i, ups)
    {
    }
  }

  /**
   The table in use and the one that waits to be written are, variable by variable, what the calls
   about that variable make them, and the file is the waiting table of the last successful update.
   */
  lemma {:induction false} TablesFollow(c: Config, ups: seq<Update>)
    requires Sized(c) && c.backup == Some(c.values)
    ensures Applied(c, ups).values == AllInUse(c, ups) && Applied(c, ups).backup.value == AllWaiting(c, ups)
    ensures var n := LastWrite(c.names, ups);
      Applied(c, ups).file == if n > 0 then Print(Zip(c.names, AllWaiting(c, ups[..n]))) else c.file
    decreases |ups|
  {
    if ups == [] {
      assert AllInUse(c, ups) == c.values && AllWaiting(c, ups) == c.values;
    } else {
      var rest, u := ups[..|ups| - 1], ups[|ups| - 1];
      TablesFollow(c, rest);
      ApplyFields(Applied(c, rest), c, rest, u);
      assert rest + [u] == ups;
      var n := LastWrite(c.names, ups);
      if n < |ups| {
        assert ups[..n] == rest[..n];
      } else {
        assert ups[..n] == ups;
      }
    }
  }

  // ----- What is written can be read -----

  /** A value that the file can hold under the name that is found. */
  predicate Proper(names: seq<string>, u: Update) {
    var i := IndexOf(names, u.name, 0);
    i.Some? ==> IsValue(u.value) && Printable(Var(names[i.value], u.value))
  }

  predicate AllProper(names: seq<string>, ups: seq<Update>) {
    forall i | 0 <= i < |ups| :: Proper(names, ups[i])
  }

  lemma {:induction false} WaitingIsProper(first: string, names: seq<string>, i: nat, ups: seq<Update>)
    requires i < |names| && AllProper(names, ups)
    requires IsVar(Var(names[i], first)) && Printable(Var(names[i], first))
    ensures var v := Var(names[i], InUse(first, names, i, ups));
      IsVar(v) && Printable(v)
    ensures var v := Var(names[i], Waiting(first, names, i, ups));
      IsVar(v) && Printable(v)
    decreases |ups|
  {
    if ups == [] {
    } else {
      assert Proper(names, ups[|ups| - 1]);
      WaitingIsProper(first, names, i, ups[..|ups| - 1]);
    }
  }

  lemma WaitingIsWritable(c: Config, ups: seq<Update>)
    requires Sized(c) && AllProper(c.names, ups) && AllWritable(Zip(c.names, c.values))
    ensures AllWritable(Zip(c.names, AllWaiting(c, ups)))
  {
    var vars, vars' := Zip(c.names, c.values), Zip(c.names, AllWaiting(c, ups));
    forall i | 0 <= i < |vars'|
      ensures IsVar(vars'[i]) && Printable(vars'[i])
    {
      assert IsVar(vars[i]) && Printable(vars[i]);
      WaitingIsProper(c.values[i], c.names, i, ups);
    }
  }

  lemma LoadedIsWritable(text: string)
    ensures var c := Loaded(text, true);
      AllWritable(Zip(c.names, c.values)) && |c.names| <= MAX_VAR_NUM
  {
    var c, vars := Loaded(text, true), Parse(text);
    ReadIsWritable(text, []);
    assert |c.names| == |vars|;
    forall j | 0 <= j < |vars|
      ensures IsVar(vars[j]) && Printable(vars[j])
    {
      assert IsRead(vars[j]);
    }
  }

  lemma WrittenIsRead(text: string, ups: seq<Update>)
    requires AllProper(Loaded(text, true).names, ups)
    ensures var w := Zip(Loaded(text, true).names, AllWaiting(Loaded(text, true), ups));
      Parse(Print(w)) == Kept(w) && (Parse(Print(w)) == w <==> AllFit(w) && AllBare(w))
  {
    var c := Loaded(text, true);
    LoadedIsWritable(text);
    WaitingIsWritable(c, ups);
    WriteThenRead(Zip(c.names, AllWaiting(c, ups)));
  }

  /** What was written reads as these values exactly if every line fits and the values agree without slashes. */
  lemma ReadsAs(names: seq<string>, written: seq<string>, values: seq<string>)
    requires |written| == |values| == |names|
    ensures Kept(Zip(names, written)) == Zip(names, values) <==>
      AllFit(Zip(names, written)) && forall i | 0 <= i < |names| :: Strip(written[i]) == values[i]
  {
    var w, v := Zip(names, written), Zip(names, values);
    KeptIs(w);
    if AllFit(w) {
      assert forall i | 0 <= i < |names| ::
          Kept(w)[i] == Var(names[i], Strip(written[i])) && v[i] == Var(names[i], values[i]);
      if Kept(w) == v {
        forall i | 0 <= i < |names|
          ensures Strip(written[i]) == values[i]
        {
          assert Kept(w)[i] == v[i];
        }
      }
    }
  }

  /**
   Any sequence of updates, successful, failed or waiting for the next write, and then a restart: the
   file holds what waited at the last successful update, and it reads as the table in memory exactly if
   every line of it fits and every variable has waited with its value in use, up to slashes at the end.
   */
  lemma UpdatesSurviveRestart(text: string, ups: seq<Update>)
    requires AllProper(Loaded(text, true).names, ups) && LastWrite(Loaded(text, true).names, ups) > 0
    ensures var c0, c := Loaded(text, true), Applied(Loaded(text, true), ups);
      var written := AllWaiting(c0, ups[..LastWrite(c0.names, ups)]);
      && c.values == AllInUse(c0, ups)
      && Parse(c.file) == Kept(Zip(c.names, written))
      && (Parse(c.file) == Zip(c.names, c.values) <==>
            AllFit(Zip(c.names, written)) && forall i | 0 <= i < |c.names| :: Strip(written[i]) == c.values[i])
  {
    var c0, c := Loaded(text, true), Applied(Loaded(text, true), ups);
    var n := LastWrite(c0.names, ups);
    var written := AllWaiting(c0, ups[..n]);
    TablesFollow(c0, ups);
    WrittenIsRead(text, ups[..n]);
    ReadsAs(c0.names, written, c.values);
  }

  // ----- Without calls that wait -----

  predicate NoneWaits(ups: seq<Update>) {
    forall i | 0 <= i < |ups| :: ups[i].Update?
  }

  lemma {:induction false} NothingWaits(first: string, names: seq<string>, i: nat, ups: seq<Update>)
    requires NoneWaits(ups) && i < |names|
    ensures Waiting(first, names, i, ups) == InUse(first, names, i, ups)
    ensures InUse(first, names, i, ups[..LastWrite(names, ups)]) == InUse(first, names, i, ups)
    decreases |ups|
  {
    if ups == [] {
    } else {
      var rest, n := ups[..|ups| - 1], LastWrite(names, ups);
      NothingWaits(first, names, i, rest);
      assert n < |ups| ==> ups[..n] == rest[..n];
      assert n == |ups| ==> ups[..n] == ups;
    }
  }

  lemma InUseIsWritten(c: Config, ups: seq<Update>)
    requires Sized(c) && NoneWaits(ups)
    ensures AllWaiting(c, ups[..LastWrite(c.names, ups)]) == AllInUse(c, ups)
  {
    var n := LastWrite(c.names, ups);
    forall i | 0 <= i < |c.names|
      ensures Waiting(c.values[i], c.names, i, ups[..n]) == InUse(c.values[i], c.names, i, ups)
    {
      NothingWaits(c.values[i], c.names, i, ups);
      NothingWaits(c.values[i], c.names, i, ups[..n]);
    }
  }

  /**
   Any sequence of updates of which none waits survives a restart: reading the new file gives the
   table in memory, exactly if no line has become too long and no value ends in a slash.
   */
  lemma SetSurvivesRestart(text: string, ups: seq<Update>)
    requires AllProper(Loaded(text, true).names, ups) && LastWrite(Loaded(text, true).names, ups) > 0 && NoneWaits(ups)
    ensures var c := Applied(Loaded(text, true), ups);
      Parse(c.file) == Zip(c.names, c.values) <==> AllFit(Zip(c.names, c.values)) && AllBare(Zip(c.names, c.values))
  {
    var c0 := Loaded(text, true);
    TablesFollow(c0, ups);
    InUseIsWritten(c0, ups);
    WrittenIsRead(text, ups[..LastWrite(c0.names, ups)]);
  }
}
