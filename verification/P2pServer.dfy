/**
 The rendezvous server's own data: request buffers from a fixed pool, one list of all requests
 and 256 hash lines.  One turn of its loop is `HandleRequest`; it is proved against P2pSpec.
 */
module P2pServer {
  import opened Common
  import opened P2pSpec

  const HASH_LINES: nat := 256

  type Slot = nat

  // ----- C strings -----

  /** A 32-byte field that holds a terminated string. */
  type Name = s: seq<SChar> | |s| == 32 && 0 in s witness NoName()

  function NoName(): (s: seq<SChar>)
    ensures |s| == 32 && s[0] == 0
  {
    seq(32, _ => 0)
  }

  /** The characters before the first NUL. */
  function CStr(s: seq<SChar>): (r: Str)
    requires 0 in s
    ensures |r| < |s| && r == s[..|r|] && s[|r|] == 0 && 0 !in r
  {
    if s[0] == 0 then [] else [s[0]] + CStr(s[1..])
  }

  /** `strcmp(a, b) == 0` */
  predicate StrEq(a: seq<SChar>, b: seq<SChar>)
    requires 0 in a && 0 in b
  {
    a[0] == b[0] && (a[0] == 0 || StrEq(a[1..], b[1..]))
  }

  lemma {:induction false} StrEqIsCStrEq(a: seq<SChar>, b: seq<SChar>)
    requires 0 in a && 0 in b
    ensures StrEq(a, b) <==> CStr(a) == CStr(b)
  {
    if a[0] == 0 || b[0] == 0 {
    } else {
      StrEqIsCStrEq(a[1..], b[1..]);
      assert CStr(a)[1..] == CStr(a[1..]) && CStr(b)[1..] == CStr(b[1..]);
    }
  }

  /** The product is signed; taken modulo 256 it is first converted to a 64-bit unsigned number. */
  function HashIndex(name: Name): (line: nat)
    ensures line < HASH_LINES
  {
    var idx := (name[0] as int) * (name[1] as int);
    (if idx < 0 then idx + 0x1_0000_0000_0000_0000 else idx) % HASH_LINES
  }

  /** What follows the NUL does not matter: equal names are in the same line. */
  lemma EqualNamesShareLine(a: Name, b: Name)
    requires CStr(a) == CStr(b)
    ensures HashIndex(a) == HashIndex(b)
  {
    assert a[0] != 0 ==> CStr(a)[0] == a[0];
    assert b[0] != 0 ==> CStr(b)[0] == b[0];
    if a[0] != 0 {
      SecondChar(a);
      SecondChar(b);
    }
  }

  lemma SecondChar(a: Name)
    requires a[0] != 0
    ensures a[1] == if |CStr(a)| > 1 then CStr(a)[1] else 0
  {
  }

  // ----- Requests -----

  datatype ConnReq = ConnReq(usrSrc: Name, usrDst: Name, passWord: Name)

  /** The contents of a request buffer. */
  datatype Entry = Entry(req: ConnReq, addr: Addr, timestamp: int)

  datatype Reply =
    | DstOffline(usrSrc: Str, usrDst: Str, srcAddr: Addr)
    | RespOk(usrSrc: Str, usrDst: Str, srcAddr: Addr, dstAddr: Addr)

  function RegOf(e: Entry): Reg {
    Reg(Pair(CStr(e.req.usrSrc), CStr(e.req.usrDst)), CStr(e.req.passWord), e.addr, e.timestamp)
  }

  predicate ReqEqual(a: ConnReq, b: ConnReq) {
    StrEq(a.usrSrc, b.usrSrc) && StrEq(a.usrDst, b.usrDst)
  }

  predicate ReqMatch(a: ConnReq, b: ConnReq) {
    StrEq(a.usrSrc, b.usrDst) && StrEq(a.usrDst, b.usrSrc) && StrEq(a.passWord, b.passWord)
  }

  lemma ReqEqualIsPair(a: Entry, b: Entry)
    ensures ReqEqual(a.req, b.req) <==> RegOf(a).pair == RegOf(b).pair
    ensures ReqEqual(a.req, b.req) ==> HashIndex(a.req.usrSrc) == HashIndex(b.req.usrSrc)
  {
    StrEqIsCStrEq(a.req.usrSrc, b.req.usrSrc);
    StrEqIsCStrEq(a.req.usrDst, b.req.usrDst);
    if ReqEqual(a.req, b.req) {
      EqualNamesShareLine(a.req.usrSrc, b.req.usrSrc);
    }
  }

  lemma ReqMatchIsMatches(a: Entry, b: Entry)
    ensures ReqMatch(a.req, b.req) <==> Matches(RegOf(a), RegOf(b))
    ensures ReqMatch(a.req, b.req) ==> HashIndex(a.req.usrSrc) == HashIndex(b.req.usrDst)
  {
    StrEqIsCStrEq(a.req.usrSrc, b.req.usrDst);
    StrEqIsCStrEq(a.req.usrDst, b.req.usrSrc);
    StrEqIsCStrEq(a.req.passWord, b.req.passWord);
    if ReqMatch(a.req, b.req) {
      EqualNamesShareLine(a.req.usrSrc, b.req.usrDst);
    }
  }

  // ----- Lists of buffers -----

  lemma {:induction false} RemoveIsCut(l: seq<Slot>, i: nat)
    requires NoDup(l) && i < |l|
    ensures Remove(l, l[i]) == Cut(l, i)
  {
    if i == 0 {
    } else {
      assert l[0] != l[i] && l[1..][i - 1] == l[i];
      RemoveIsCut(l[1..], i - 1);
      assert Cut(l, i) == [l[0]] + Cut(l[1..], i - 1);
    }
  }

  /** Every buffer is in the pool, in the list of requests or in the server's hands, and in one of them only. */
  ghost predicate Partition(pool: seq<Slot>, hand: seq<Slot>, all: seq<Slot>) {
    && NoDup(pool) && NoDup(all) && |hand| <= 1
    && (forall b | b in pool :: b !in all && b !in hand && b < MAX_REQ_NUM)
    && (forall b | b in all :: b !in hand && b < MAX_REQ_NUM)
    && (forall b | b in hand :: b < MAX_REQ_NUM)
    && |pool| + |hand| + |all| == MAX_REQ_NUM
  }

  function Lines(reqs: seq<Entry>): (r: seq<nat>)
    ensures |r| == |reqs| && forall b | 0 <= b < |reqs| :: r[b] == HashIndex(reqs[b].req.usrSrc)
  {
    seq(|reqs|, b requires 0 <= b < |reqs| => HashIndex(reqs[b].req.usrSrc))
  }

  /** The hash lines hold exactly the requests of the list, each once, in the line of its source name. */
  ghost predicate Filed(hash: seq<seq<Slot>>, line: seq<nat>, all: seq<Slot>) {
    && |hash| == HASH_LINES
    && (forall b | b in all :: b < |line| && line[b] < HASH_LINES && b in hash[line[b]])
    && (forall l | 0 <= l < HASH_LINES :: NoDup(hash[l]))
    && (forall l | 0 <= l < HASH_LINES :: forall b | b in hash[l] :: b in all && line[b] == l)
  }

  lemma FileAway(hash: seq<seq<Slot>>, line: seq<nat>, all: seq<Slot>, b: Slot)
    requires Filed(hash, line, all) && NoDup(all) && b in all
    ensures Filed(hash[line[b] := Remove(hash[line[b]], b)], line, Remove(all, b))
  {
    RemoveFromNoDup(all, b);
    RemoveFromNoDup(hash[line[b]], b);
  }

  lemma FileNew(hash: seq<seq<Slot>>, line: seq<nat>, line': seq<nat>, all: seq<Slot>, b: Slot)
    requires Filed(hash, line, all) && b !in all && |line'| == |line| && b < |line'| && line'[b] < HASH_LINES
    requires forall c | c in all :: line'[c] == line[c]
    ensures Filed(hash[line'[b] := hash[line'[b]] + [b]], line', all + [b])
  {
    var hash' := hash[line'[b] := hash[line'[b]] + [b]];
    assert forall c | c in all + [b] :: c in all || c == b;
    assert forall c | c in hash[line'[b]] + [b] :: c in hash[line'[b]] || c == b;
  }

  /** The requests of the list, oldest first, as the specification sees them. */
  function Regs(reqs: seq<Entry>, all: seq<Slot>): (t: seq<Reg>)
    requires forall b | b in all :: b < |reqs|
    ensures |t| == |all| && forall i | 0 <= i < |all| :: all[i] in all && t[i] == RegOf(reqs[all[i]])
  {
    seq(|all|, i requires 0 <= i < |all| => assert all[i] in all; RegOf(reqs[all[i]]))
  }

  lemma RegsCut(reqs: seq<Entry>, all: seq<Slot>, i: nat)
    requires (forall c | c in all :: c < |reqs|) && i < |all|
    ensures forall c | c in Cut(all, i) :: c < |reqs|
    ensures Regs(reqs, Cut(all, i)) == Cut(Regs(reqs, all), i)
  {
    CutElements(all, i);
    var t, c := Regs(reqs, Cut(all, i)), Cut(Regs(reqs, all), i);
    forall j | 0 <= j < |c|
      ensures t[j] == c[j]
    {
      assert Cut(all, i)[j] == all[if j < i then j else j + 1];
    }
    assert t == c;
  }

  lemma RegsRemove(reqs: seq<Entry>, all: seq<Slot>, b: Slot)
    requires forall c | c in all :: c < |reqs|
    requires NoDup(all) && b in all && Distinct(Regs(reqs, all))
    ensures forall c | c in Remove(all, b) :: c < |reqs|
    ensures Regs(reqs, Remove(all, b)) == Without(Regs(reqs, all), RegOf(reqs[b]).pair)
  {
    var i: nat :| i < |all| && all[i] == b;
    RemoveIsCut(all, i);
    RemoveFromNoDup(all, b);
    WithoutAt(Regs(reqs, all), i);
    RegsCut(reqs, all, i);
  }

  lemma RegsAppend(reqs: seq<Entry>, all: seq<Slot>, b: Slot, e: Entry)
    requires forall c | c in all :: c < |reqs| && c != b
    requires b < |reqs|
    ensures forall c | c in all + [b] :: c < |reqs[b := e]|
    ensures Regs(reqs[b := e], all + [b]) == Regs(reqs, all) + [RegOf(e)]
  {
    assert forall c | c in all + [b] :: c in all || c == b;
  }

  lemma RegsMembers(reqs: seq<Entry>, all: seq<Slot>)
    requires forall c | c in all :: c < |reqs|
    ensures forall b | b in all :: RegOf(reqs[b]) in Regs(reqs, all)
    ensures forall r | r in Regs(reqs, all) :: exists b :: b in all && RegOf(reqs[b]) == r
  {
    var t := Regs(reqs, all);
    forall b | b in all
      ensures RegOf(reqs[b]) in t
    {
      var i: nat :| i < |all| && all[i] == b;
      assert t[i] == RegOf(reqs[b]);
    }
    forall r | r in t
      ensures exists b :: b in all && RegOf(reqs[b]) == r
    {
      var i: nat :| i < |t| && t[i] == r;
      assert all[i] in all && RegOf(reqs[all[i]]) == r;
    }
  }

  // ----- The server -----

  ghost predicate Consistent(pool: seq<Slot>, hand: seq<Slot>, all: seq<Slot>, hash: seq<seq<Slot>>,
                             reqs: seq<Entry>, num: int) {
    && |reqs| == MAX_REQ_NUM && num == |all|
    && Partition(pool, hand, all)
    && Filed(hash, Lines(reqs), all)
    && Distinct(Regs(reqs, all))
  }

  /** Both names are echoed, with the sender's own address. */
  function ReplyTo(e: Entry, peer: Option<Addr>): Reply {
    match peer
    case None => DstOffline(CStr(e.req.usrSrc), CStr(e.req.usrDst), e.addr)
    case Some(a) => RespOk(CStr(e.req.usrSrc), CStr(e.req.usrDst), e.addr, a)
  }

  /** A registration by the one asked for, for the one who asks, with the same password and at most 60 seconds old. */
  predicate Waiting(m: Reg, e: Entry) {
    && m.pair == Pair(CStr(e.req.usrDst), CStr(e.req.usrSrc)) && m.pass == CStr(e.req.passWord)
    && e.timestamp - m.time <= 60
  }

  /** The request for which the oldest of 256 registrations makes room. */
  predicate PushesOut(t: seq<Reg>, m: Reg, e: Entry) {
    |t| == 256 && m == t[0] && forall i | 0 <= i < |t| :: t[i].pair != Pair(CStr(e.req.usrSrc), CStr(e.req.usrDst))
  }

  /** What is sent back to `e` from a table `t` of the requests before. */
  ghost predicate IsReply(t: seq<Reg>, e: Entry, reply: Reply) {
    var src, dst := CStr(e.req.usrSrc), CStr(e.req.usrDst);
    if src == dst then reply == RespOk(src, dst, e.addr, e.addr)
    else
      && (forall m | m in t && Waiting(m, e) && !PushesOut(t, m, e) :: reply == RespOk(src, dst, e.addr, m.addr))
      && ((forall m | m in t && Waiting(m, e) :: PushesOut(t, m, e)) ==> reply == DstOffline(src, dst, e.addr))
  }

  lemma ReplyIs(t: seq<Reg>, e: Entry)
    requires Distinct(t) && |t| <= MAX_REQ_NUM
    ensures IsReply(t, e, ReplyTo(e, Answer(t, RegOf(e))))
  {
    var r := RegOf(e);
    if r.pair.src == r.pair.dst {
      AnswerIff(t, r, e.addr);
    } else {
      PushesOutIs(t, e);
      forall m | m in t && Waiting(m, e) && !PushesOut(t, m, e)
        ensures Answer(t, r) == Some(m.addr)
      {
        AnswerIff(t, r, m.addr);
      }
      if Answer(t, r).Some? {
        AnswerIff(t, r, Answer(t, r).value);
      }
    }
  }

  lemma PushesOutIs(t: seq<Reg>, e: Entry)
    ensures forall m :: PushesOut(t, m, e) <==> |t| == MAX_REQ_NUM && m == t[0] && !Has(t, RegOf(e).pair)
    ensures forall m :: Waiting(m, e) <==> Matches(m, RegOf(e)) && !Stale(m, RegOf(e))
  {
  }

  lemma MatchInLine(hash: seq<seq<Slot>>, reqs: seq<Entry>, all: seq<Slot>, e: Entry, b: Slot)
    requires Filed(hash, Lines(reqs), all) && Distinct(Regs(reqs, all))
    requires b in hash[HashIndex(e.req.usrDst)] && b < |reqs| && ReqMatch(reqs[b].req, e.req)
    ensures b in all && FindMatch(Regs(reqs, all), RegOf(e)) == Some(RegOf(reqs[b]))
  {
    RegsMembers(reqs, all);
    ReqMatchIsMatches(reqs[b], e);
    MatchIsUnique(Regs(reqs, all), RegOf(reqs[b]), RegOf(e));
  }

  lemma NoMatchInLine(hash: seq<seq<Slot>>, reqs: seq<Entry>, all: seq<Slot>, e: Entry)
    requires Filed(hash, Lines(reqs), all)
    requires forall b | b in hash[HashIndex(e.req.usrDst)] :: b < |reqs| && !ReqMatch(reqs[b].req, e.req)
    ensures FindMatch(Regs(reqs, all), RegOf(e)) == None
  {
    RegsMembers(reqs, all);
    forall b | b in all
      ensures !Matches(RegOf(reqs[b]), RegOf(e))
    {
      ReqMatchIsMatches(reqs[b], e);
    }
  }

  class Server {
    var pool: seq<Slot>
    var reqs: seq<Entry>
    var allReqs: seq<Slot>
    var hashReqs: seq<seq<Slot>>
    var reqNum: int

    /** The invariant, with the buffers that the current call holds between two lists. */
    ghost predicate Holding(hand: seq<Slot>)
      reads this
    {
      Consistent(pool, hand, allReqs, hashReqs, reqs, reqNum)
    }

    ghost predicate Valid()
      reads this
    {
      Holding([])
    }

    ghost function Contents(): (t: seq<Reg>)
      reads this
      requires forall b | b in allReqs :: b < |reqs|
    {
      Regs(reqs, allReqs)
    }

    constructor ()
      ensures Valid() && Contents() == []
    {
      pool := seq(MAX_REQ_NUM, (i: nat) => i);
      reqs := seq(MAX_REQ_NUM, _ => Entry(ConnReq(NoName(), NoName(), NoName()), Addr(0, 0), 0));
      allReqs := [];
      hashReqs := seq(HASH_LINES, _ => []);
      reqNum := 0;
    }

    /** The request of the same pair, if any: a search of one hash line. */
    method FindReq(e: Entry) returns (r: Option<Slot>)
      requires Valid()
      ensures r.Some? ==> r.value in allReqs && RegOf(reqs[r.value]).pair == RegOf(e).pair
      ensures r.None? <==> !Has(Contents(), RegOf(e).pair)
    {
      var line := HashIndex(e.req.usrSrc);
      var l := hashReqs[line];
      RegsMembers(reqs, allReqs);
      var i := 0;
      while i < |l|
        invariant 0 <= i <= |l|
        invariant forall b | b in l[..i] :: b < |reqs| && !ReqEqual(reqs[b].req, e.req)
      {
        assert l[i] in l;
        if ReqEqual(reqs[l[i]].req, e.req) {
          ReqEqualIsPair(reqs[l[i]], e);
          assert RegOf(reqs[l[i]]) in Contents();
          return Some(l[i]);
        }
        assert l[..i + 1] == l[..i] + [l[i]];
        i := i + 1;
      }
      assert l[..i] == l;
      forall b | b in allReqs
        ensures RegOf(reqs[b]).pair != RegOf(e).pair
      {
        ReqEqualIsPair(reqs[b], e);
      }
      return None;
    }

    /** The first request of a line that matches. */
    method FirstMatch(l: seq<Slot>, e: Entry) returns (r: Option<Slot>)
      requires forall b | b in l :: b < |reqs|
      ensures r.Some? ==> r.value in l && ReqMatch(reqs[r.value].req, e.req)
      ensures r.None? ==> forall b | b in l :: !ReqMatch(reqs[b].req, e.req)
    {
      var i := 0;
      while i < |l|
        invariant 0 <= i <= |l|
        invariant forall j | 0 <= j < i :: l[j] in l && !ReqMatch(reqs[l[j]].req, e.req)
      {
        assert l[i] in l;
        if ReqMatch(reqs[l[i]].req, e.req) {
          return Some(l[i]);
        }
        i := i + 1;
      }
      return None;
    }

    /** The other half of the request, if any: a search of the line of its destination. */
    method FindMatchReq(e: Entry) returns (r: Option<Slot>)
      requires Valid()
      ensures r.Some? ==> r.value in allReqs && FindMatch(Contents(), RegOf(e)) == Some(RegOf(reqs[r.value]))
      ensures r.None? ==> FindMatch(Contents(), RegOf(e)) == None
    {
      r := FirstMatch(hashReqs[HashIndex(e.req.usrDst)], e);
      if r.Some? {
        MatchInLine(hashReqs, reqs, allReqs, e, r.value);
      } else {
        NoMatchInLine(hashReqs, reqs, allReqs, e);
      }
    }

    method DeleteReq(b: Slot)
      requires Valid() && b in allReqs
      modifies this`allReqs, this`hashReqs, this`reqNum
      ensures Holding([b]) && Contents() == Without(old(Contents()), RegOf(reqs[b]).pair)
      ensures reqNum == old(reqNum) - 1
    {
      DeletedFrom(pool, allReqs, hashReqs, reqs, reqNum, b);
      var line := HashIndex(reqs[b].req.usrSrc);
      allReqs := Remove(allReqs, b);
      hashReqs := hashReqs[line := Remove(hashReqs[line], b)];
      reqNum := reqNum - 1;
    }

    method ReleaseReq(b: Slot)
      requires Valid() && b in allReqs
      modifies this`pool, this`allReqs, this`hashReqs, this`reqNum
      ensures Valid() && Contents() == Without(old(Contents()), RegOf(reqs[b]).pair)
      ensures pool == old(pool) + [b] && reqNum == old(reqNum) - 1
    {
      DeleteReq(b);
      pool := pool + [b];
      assert forall c | c in pool :: c in old(pool) || c == b;
    }

    method ReleaseOldestReq()
      requires Valid() && reqNum > 0
      modifies this`pool, this`allReqs, this`hashReqs, this`reqNum
      ensures Valid() && Contents() == old(Contents())[1..] && pool != []
    {
      assert allReqs[0] in allReqs;
      WithoutAt(Contents(), 0);
      ReleaseReq(allReqs[0]);
    }

    /** The request's contents go into the buffer in hand, which joins the lists as the newest. */
    method AddReq(b: Slot, e: Entry)
      requires Holding([b]) && !Has(Contents(), RegOf(e).pair)
      modifies this`reqs, this`allReqs, this`hashReqs, this`reqNum
      ensures Valid() && Contents() == old(Contents()) + [RegOf(e)]
    {
      AddedTo(pool, allReqs, hashReqs, reqs, reqNum, b, e);
      reqs := reqs[b := e];
      var line := HashIndex(e.req.usrSrc);
      allReqs := allReqs + [b];
      hashReqs := hashReqs[line := hashReqs[line] + [b]];
      reqNum := reqNum + 1;
    }

    /** A buffer from the pool, which is not empty: with 256 requests listed, the oldest makes room. */
    method AllocBuffer(e: Entry) returns (b: Slot)
      requires Valid() && !Has(Contents(), RegOf(e).pair)
      modifies this`pool, this`allReqs, this`hashReqs, this`reqNum
      ensures Holding([b]) && !Has(Contents(), RegOf(e).pair)
      ensures Contents() == if old(reqNum) >= MAX_REQ_NUM then old(Contents())[1..] else old(Contents())
    {
      if reqNum >= MAX_REQ_NUM {
        ReleaseOldestReq();
      }
      b := pool[0];
      assert b in pool;
      pool := pool[1..];
      assert forall c | c in pool :: c in [b] + pool;
    }

    /** The buffer for the request: that of the same pair, or a new one. */
    method TakeBuffer(e: Entry) returns (b: Slot)
      requires Valid()
      modifies this`pool, this`allReqs, this`hashReqs, this`reqNum
      ensures Holding([b]) && !Has(Contents(), RegOf(e).pair)
      ensures Contents() + [RegOf(e)] == Refresh(old(Contents()), RegOf(e))
    {
      var f := FindReq(e);
      ghost var t := Contents();
      RefreshKeeps(t, RegOf(e));
      WithoutKeeps(t, RegOf(e).pair);
      if f.Some? {
        b := f.value;
        DeleteReq(b);
      } else {
        WithoutNone(t, RegOf(e).pair);
        b := AllocBuffer(e);
      }
    }

    /** The request becomes the newest. */
    method Register(e: Entry)
      requires Valid()
      modifies this
      ensures Valid() && Contents() == Refresh(old(Contents()), RegOf(e))
    {
      var b := TakeBuffer(e);
      AddReq(b, e);
    }

    /** The peer's address; a peer that asked more than a minute ago is forgotten instead. */
    method FindPeer(e: Entry) returns (r: Option<Addr>)
      requires Valid()
      modifies this
      ensures Valid() && Contents() == DropStale(old(Contents()), RegOf(e))
      ensures r == var m := FindMatch(old(Contents()), RegOf(e));
        if m.Some? && !Stale(m.value, RegOf(e)) then Some(m.value.addr) else None
    {
      var f := FindMatchReq(e);
      if f.None? {
        return None;
      }
      if e.timestamp - reqs[f.value].timestamp > GAP {
        ReleaseReq(f.value);
        return None;
      }
      return Some(reqs[f.value].addr);
    }

    lemma ContentsFit()
      requires Valid()
      ensures Distinct(Contents()) && |Contents()| <= MAX_REQ_NUM
    {
      CountsAgree(this);
    }

    /** One turn of the server's loop. */
    method HandleRequest(e: Entry) returns (reply: Reply)
      requires Valid()
      modifies this
      ensures Valid()
      ensures Contents() == Serve(old(Contents()), RegOf(e))
      ensures reply == ReplyTo(e, Answer(old(Contents()), RegOf(e))) && IsReply(old(Contents()), e, reply)
    {
      ContentsFit();
      ReplyIs(Contents(), e);
      Register(e);
      var peer := FindPeer(e);
      reply := ReplyTo(e, peer);
    }
  }

  lemma DeletedFrom(pool: seq<Slot>, all: seq<Slot>, hash: seq<seq<Slot>>, reqs: seq<Entry>, num: int, b: Slot)
    requires Consistent(pool, [], all, hash, reqs, num) && b in all
    ensures |hash| == HASH_LINES && b < |reqs| && b in hash[HashIndex(reqs[b].req.usrSrc)]
    ensures var line := HashIndex(reqs[b].req.usrSrc);
      Consistent(pool, [b], Remove(all, b), hash[line := Remove(hash[line], b)], reqs, num - 1)
    ensures Regs(reqs, Remove(all, b)) == Without(Regs(reqs, all), RegOf(reqs[b]).pair)
  {
    RemoveFromNoDup(all, b);
    FileAway(hash, Lines(reqs), all, b);
    RegsRemove(reqs, all, b);
    WithoutKeeps(Regs(reqs, all), RegOf(reqs[b]).pair);
  }

  lemma HandedIn(pool: seq<Slot>, all: seq<Slot>, b: Slot)
    requires Partition(pool, [b], all)
    ensures Partition(pool, [], all + [b]) && b < MAX_REQ_NUM && b !in all
  {
    assert b in [b];
    assert forall c | c in all + [b] :: c in all || c == b;
  }

  lemma AddedTo(pool: seq<Slot>, all: seq<Slot>, hash: seq<seq<Slot>>, reqs: seq<Entry>, num: int, b: Slot, e: Entry)
    requires Consistent(pool, [b], all, hash, reqs, num)
    requires !Has(Regs(reqs, all), RegOf(e).pair)
    ensures |hash| == HASH_LINES && b < |reqs|
    ensures var line := HashIndex(e.req.usrSrc);
      Consistent(pool, [], all + [b], hash[line := hash[line] + [b]], reqs[b := e], num + 1)
    ensures Regs(reqs[b := e], all + [b]) == Regs(reqs, all) + [RegOf(e)]
  {
    HandedIn(pool, all, b);
    FileNew(hash, Lines(reqs), Lines(reqs[b := e]), all, b);
    RegsAppend(reqs, all, b, e);
  }

  // ----- Counting -----

  function Flatten(hash: seq<seq<Slot>>): seq<Slot> {
    if hash == [] then [] else Flatten(hash[..|hash| - 1]) + hash[|hash| - 1]
  }

  function Total(hash: seq<seq<Slot>>): nat {
    if hash == [] then 0 else Total(hash[..|hash| - 1]) + |hash[|hash| - 1]|
  }

  lemma {:induction false} FlattenLines(hash: seq<seq<Slot>>, line: seq<nat>)
    requires forall l | 0 <= l < |hash| :: NoDup(hash[l])
    requires forall l | 0 <= l < |hash| :: forall b | b in hash[l] :: b < |line| && line[b] == l
    ensures NoDup(Flatten(hash)) && |Flatten(hash)| == Total(hash)
    ensures forall b :: b in Flatten(hash) <==> exists l :: 0 <= l < |hash| && b in hash[l]
  {
    if hash == [] {
    } else {
      var h', last := hash[..|hash| - 1], hash[|hash| - 1];
      FlattenLines(h', line);
      forall b
        ensures b in Flatten(hash) <==> exists l :: 0 <= l < |hash| && b in hash[l]
      {
        if l :| 0 <= l < |hash| && b in hash[l] {
          assert l < |h'| ==> b in h'[l];
        }
        if b in Flatten(h') {
          var l :| 0 <= l < |h'| && b in h'[l];
          assert b in hash[l];
        } else if b in last {
          assert b in hash[|h'|];
        }
      }
      forall b | b in last
        ensures b !in Flatten(h')
      {
        assert hash[|h'|] == last;
        assert forall l | 0 <= l < |h'| :: h'[l] == hash[l];
      }
      NoDupAppend(Flatten(h'), last);
    }
  }

  lemma NoDupAppend(l: seq<Slot>, m: seq<Slot>)
    requires NoDup(l) && NoDup(m) && forall b | b in m :: b !in l
    ensures NoDup(l + m)
  {
    forall i, j | 0 <= i < j < |l + m|
      ensures (l + m)[i] != (l + m)[j]
    {
      if i < |l| <= j {
        assert l[i] in l && m[j - |l|] in m;
      }
    }
  }

  lemma {:induction false} FewerMembersShorter(l: seq<Slot>, m: seq<Slot>)
    requires NoDup(l) && NoDup(m) && forall b | b in l :: b in m
    ensures |l| <= |m|
  {
    if l == [] {
    } else {
      RemoveFromNoDup(m, l[0]);
      FewerMembersShorter(l[1..], Remove(m, l[0]));
    }
  }

  /** `req_num` is the length of the list, the total over the hash lines, and what the pool lacks of 256. */
  lemma CountsAgree(s: Server)
    requires s.Valid()
    ensures s.reqNum == |s.allReqs| == Total(s.hashReqs) == |s.Contents()| == MAX_REQ_NUM - |s.pool|
  {
    FlattenLines(s.hashReqs, Lines(s.reqs));
    FewerMembersShorter(Flatten(s.hashReqs), s.allReqs);
    FewerMembersShorter(s.allReqs, Flatten(s.hashReqs));
  }

  // ----- Whole runs -----

  function History(es: seq<Entry>): seq<Reg> {
    if es == [] then [] else History(es[..|es| - 1]) + [RegOf(es[|es| - 1])]
  }

  /** Each request answered from the specified table of the requests before it. */
  function ExpectedReplies(es: seq<Entry>): seq<Reply> {
    if es == [] then []
    else
      var before, e := es[..|es| - 1], es[|es| - 1];
      ExpectedReplies(before) + [ReplyTo(e, Answer(Table(History(before)), RegOf(e)))]
  }

  /** One reply to each request, which is what the table of the requests before it makes it. */
  ghost predicate AreReplies(es: seq<Entry>, replies: seq<Reply>)
    decreases |es|
  {
    if es == [] then replies == []
    else
      var n := |es| - 1;
      |replies| == |es| && AreReplies(es[..n], replies[..n]) && IsReply(Table(History(es[..n])), es[n], replies[n])
  }

  lemma OneMoreReply(es: seq<Entry>, n: nat, replies: seq<Reply>, reply: Reply)
    requires n < |es| && AreReplies(es[..n], replies) && IsReply(Table(History(es[..n])), es[n], reply)
    ensures AreReplies(es[..n + 1], replies + [reply])
  {
    assert es[..n + 1][..n] == es[..n] && (replies + [reply])[..n] == replies;
  }

  /** A server fed any requests keeps the specified table and gives the specified replies. */
  method RunServer(es: seq<Entry>) returns (s: Server, replies: seq<Reply>)
    ensures s.Valid() && s.Contents() == Table(History(es))
    ensures replies == ExpectedReplies(es) && AreReplies(es, replies)
  {
    s := new Server();
    replies := [];
    for n := 0 to |es|
      invariant s.Valid() && fresh(s) && s.Contents() == Table(History(es[..n]))
      invariant replies == ExpectedReplies(es[..n]) && AreReplies(es[..n], replies)
    {
      OneMore(es, n);
      var reply := s.HandleRequest(es[n]);
      OneMoreReply(es, n, replies, reply);
      replies := replies + [reply];
    }
    assert es[..|es|] == es;
  }

  lemma OneMore(es: seq<Entry>, n: nat)
    requires n < |es|
    ensures Table(History(es[..n + 1])) == Serve(Table(History(es[..n])), RegOf(es[n]))
    ensures ExpectedReplies(es[..n + 1]) ==
      ExpectedReplies(es[..n]) + [ReplyTo(es[n], Answer(Table(History(es[..n])), RegOf(es[n])))]
  {
    assert es[..n + 1] == es[..n] + [es[n]];
    assert (es[..n] + [es[n]])[..n] == es[..n];
    LastReply(es[..n], es[n]);
    TableSnoc(History(es[..n]), RegOf(es[n]));
  }

  lemma {:induction false} HistoryAppend(es: seq<Entry>, fs: seq<Entry>)
    ensures History(es + fs) == History(es) + History(fs)
  {
    if fs == [] {
      assert es + fs == es;
    } else {
      assert (es + fs)[..|es + fs| - 1] == es + fs[..|fs| - 1];
      HistoryAppend(es, fs[..|fs| - 1]);
    }
  }

  /** Two clients meet: the reply to B carries A's latest address. */
  lemma ClientsMeet(es: seq<Entry>, a: Entry, between: seq<Entry>, b: Entry)
    requires Matches(RegOf(a), RegOf(b)) && !Stale(RegOf(a), RegOf(b)) && RegOf(a).pair != RegOf(b).pair
    requires RegOf(a).pair !in PairsOf(History(between))
    requires |PairsOf(History(between) + [RegOf(b)])| < MAX_REQ_NUM && TimesRise(History(between) + [RegOf(b)])
    ensures ExpectedReplies(es + [a] + between + [b]) ==
      ExpectedReplies(es + [a] + between) + [RespOk(CStr(b.req.usrSrc), CStr(b.req.usrDst), b.addr, a.addr)]
  {
    LastReply(es + [a] + between, b);
    HistoryAround(es, a, between);
    Rendezvous(History(es), RegOf(a), History(between), RegOf(b));
  }

  lemma LastReply(before: seq<Entry>, b: Entry)
    ensures ExpectedReplies(before + [b]) ==
      ExpectedReplies(before) + [ReplyTo(b, Answer(Table(History(before)), RegOf(b)))]
  {
    assert (before + [b])[..|before + [b]| - 1] == before;
  }

  /** After any requests, the reply to one more. */
  lemma LastReplyIs(before: seq<Entry>, b: Entry) returns (reply: Reply)
    ensures ExpectedReplies(before + [b]) == ExpectedReplies(before) + [reply]
    ensures IsReply(Table(History(before)), b, reply)
  {
    reply := ReplyTo(b, Answer(Table(History(before)), RegOf(b)));
    LastReply(before, b);
    TableIsBounded(History(before));
    ReplyIs(Table(History(before)), b);
  }

  lemma HistoryAround(es: seq<Entry>, a: Entry, between: seq<Entry>)
    ensures History(es + [a] + between) == History(es) + [RegOf(a)] + History(between)
  {
    HistoryAppend(es + [a], between);
    HistoryAppend(es, [a]);
    assert [a][..0] == [] && History([a]) == [RegOf(a)];
  }
}
