/**
 Numeric nicks of ircd/numnicks.c: the table of servers, each server's table of clients, and the
 counter that hands out numerics to local clients.
 */
module Numerics {
  import opened Basics
  import opened CString
  import opened Base64

  const NN_MAX_SERVER: nat := 4096
  const NN_MAX_CLIENT_SHORT: nat := 4096
  const NN_MAX_CLIENT_EXT: nat := 262144

  class Client {
    var yxx: seq<char>
    constructor ()
      ensures yxx == []
    {
      yxx := [];
    }
  }

  // ----- Capacities are powers of two -----

  predicate PowerOfTwo(n: nat) {
    n == 1 || (n > 1 && n % 2 == 0 && PowerOfTwo(n / 2))
  }

  lemma {:induction false} PowersDivide(p: nat, q: nat)
    requires PowerOfTwo(p) && PowerOfTwo(q) && p <= q
    ensures q % p == 0
    decreases q
  {
    if p == 1 {
      assert q % 1 == 0;
    } else {
      PowersDivide(p / 2, q / 2);
      var d := (q / 2) / (p / 2);
      assert q / 2 == d * (p / 2);
      assert q == d * p by { assert q == 2 * (q / 2) && p == 2 * (p / 2); }
      Quotient(q, p, d, 0);
    }
  }

  lemma Doubled(p: nat)
    requires PowerOfTwo(p)
    ensures PowerOfTwo(2 * p)
  {}

  lemma ClientPowers()
    ensures PowerOfTwo(16) && PowerOfTwo(NN_MAX_CLIENT_SHORT) && PowerOfTwo(NN_MAX_CLIENT_EXT)
  {
    hide PowerOfTwo;
    OneIsPower();
    Doubled(1); Doubled(2); Doubled(4); Doubled(8); Doubled(16); Doubled(32); Doubled(64); Doubled(128); Doubled(256);
    Doubled(512); Doubled(1024); Doubled(2048); Doubled(4096); Doubled(8192); Doubled(16384); Doubled(32768);
    Doubled(65536); Doubled(131072);
  }

  lemma OneIsPower()
    ensures PowerOfTwo(1)
  {}

  /** No power of two that is large enough is smaller. */
  ghost predicate Least(p: nat, capacity: nat) {
    forall q: nat :: PowerOfTwo(q) && q >= 16 && q >= capacity ==> q >= p
  }

  /** The least power of two that is at least 16 and at least `capacity`. */
  method RoundCapacity(capacity: nat) returns (maxClients: nat)
    requires capacity <= NN_MAX_CLIENT_EXT
    ensures PowerOfTwo(maxClients) && maxClients >= 16 && maxClients >= capacity && Least(maxClients, capacity)
  {
    hide PowerOfTwo;
    ClientPowers();
    maxClients := 16;
    while maxClients < capacity
      invariant PowerOfTwo(maxClients) && 16 <= maxClients <= NN_MAX_CLIENT_EXT && Least(maxClients, capacity)
      decreases NN_MAX_CLIENT_EXT - maxClients
    {
      NextLeast(maxClients, capacity);
      NextPower(maxClients, NN_MAX_CLIENT_EXT);
      maxClients := maxClients * 2;
    }
  }

  lemma AtMost(p: nat, capacity: nat, max: nat)
    requires Least(p, capacity) && PowerOfTwo(max) && max >= 16 && max >= capacity
    ensures p <= max
  {}

  lemma NextLeast(p: nat, capacity: nat)
    requires PowerOfTwo(p) && p < capacity
    ensures PowerOfTwo(2 * p) && Least(2 * p, capacity)
  {
    forall q: nat | PowerOfTwo(q) && q >= 16 && q >= capacity ensures q >= 2 * p { NextPower(p, q); }
  }

  lemma NextPower(p: nat, q: nat)
    requires PowerOfTwo(p) && PowerOfTwo(q) && p < q
    ensures 2 * p <= q
  {
    PowersDivide(p, q);
    var d := q / p;
    assert q == d * p;
    assert d >= 2;
  }

  // ----- One server's clients -----

  class Server {
    var yxx: seq<char>
    var nnCapacity: seq<char>
    /** `nn_mask + 1`, so that `x & nn_mask` is `x % slots`. */
    var slots: nat
    var clientList: array<Client?>

    constructor (name: seq<char>)
      ensures yxx == name && slots == 1 && clientList.Length == 1 && fresh(clientList)
    {
      yxx, nnCapacity, slots := name, [], 1;
      clientList := new Client?[1](_ => null);
    }
  }

  /** The client a numeric leads to in a table of `slots` clients. */
  function SlotOf(v: nat, slots: nat): (i: nat)
    requires slots > 0
    ensures i < slots
  {
    v % slots
  }

  lemma SlotOfRest(n: nat, max: nat, slots: nat)
    requires slots > 0 && max > 0 && max % slots == 0
    ensures SlotOf(n % max, slots) == SlotOf(n, slots)
  {
    var a, b := n / max, n % max;
    var c := max / slots;
    assert n == a * max + b && max == c * slots;
    assert n == (a * c + b / slots) * slots + b % slots by {
      assert a * max == (a * c) * slots;
      assert b == (b / slots) * slots + b % slots;
    }
    Quotient(n, slots, a * c + b / slots, b % slots);
  }

  lemma Advance(n: nat, max: nat)
    requires max > 0
    ensures (n + 1) % max == if n % max + 1 == max then 0 else n % max + 1
  {
    var a, b := n / max, n % max;
    assert n == a * max + b;
    if b + 1 == max {
      assert n + 1 == (a + 1) * max;
      Quotient(n + 1, max, a + 1, 0);
    } else {
      Quotient(n + 1, max, a, b + 1);
    }
  }

  /** Counting `slots` steps from anywhere passes every slot. */
  lemma PassesEverySlot(start: nat, slots: nat, i: nat) returns (n: nat)
    requires i < slots
    ensures start <= n < start + slots && SlotOf(n, slots) == i
  {
    var a, b := start / slots, start % slots;
    assert start == a * slots + b;
    if i >= b {
      n := start + (i - b);
      Quotient(n, slots, a, i);
    } else {
      n := start + (slots - b) + i;
      assert n == (a + 1) * slots + i;
      Quotient(n, slots, a + 1, i);
    }
  }

  /**
   Two issues of one numeric: the counter has gone round at least once between them, and a whole
   number of times.
   */
  lemma SameNumeric(t: nat, u: nat, max: nat, digits: nat)
    requires t < u && max > 0 && max <= Power(digits)
    requires Digits(t % max, digits) == Digits(u % max, digits)
    ensures (u - t) % max == 0 && u - t >= max
  {
    hide Digits, Power;
    DigitsInjective(t % max, u % max, digits);
    WholeRounds(t, u, max);
  }

  lemma WholeRounds(t: nat, u: nat, max: nat)
    requires t < u && max > 0 && t % max == u % max
    ensures (u - t) % max == 0 && u - t >= max
  {
    var a, b := t / max, u / max;
    assert u - t == (b - a) * max by { assert t == a * max + t % max && u == b * max + u % max; }
    Quotient(u - t, max, b - a, 0);
    assert b - a >= 1;
    assert (b - a) * max >= max;
  }

  // ----- The tables -----

  class Network {
    var serverList: array<Server?>
    const me: Server
    var numericsExtendidos: bool
    /** The statics of `SetLocalNumNick`. */
    var lastNn: nat
    var lastNumericsExtendidos: bool
    /** How far the counter has come since the start; a change of the range of numerics takes it to the end of a turn. */
    ghost var advanced: nat

    ghost predicate Valid()
      reads this, serverList, serverList[..], me
    {
      && serverList.Length == NN_MAX_SERVER
      && (forall s :: s in serverList[..] && s != null ==> s.slots > 0 && s.clientList.Length == s.slots)
      && (|me.yxx| == 1 || |me.yxx| == 2) && Value(me.yxx) < NN_MAX_SERVER && NUL !in me.yxx
      && serverList[Value(me.yxx)] == me
      && numericsExtendidos == (|me.yxx| == 2)
      && MaxClient() % me.slots == 0 && me.slots <= MaxClient()
      && lastNn == advanced % Range(lastNumericsExtendidos)
    }

    /** How many numerics a local client can get. */
    function MaxClient(): nat
      reads this
    {
      Range(numericsExtendidos)
    }

    function NumericDigits(): nat
      reads this
    {
      if numericsExtendidos then 3 else 2
    }

    /** `SetYXXServerName` and `SetYXXCapacity` for this server itself. */
    constructor (numeric: nat, capacity: nat)
      requires numeric < NN_MAX_SERVER
      requires capacity <= if numeric >= NUMNICKBASE then NN_MAX_CLIENT_EXT else NN_MAX_CLIENT_SHORT
      ensures Valid() && fresh(me) && fresh(me.clientList) && fresh(serverList)
      ensures Value(me.yxx) == numeric && me.slots >= capacity && Value(me.nnCapacity) == me.slots - 1
      ensures forall i :: 0 <= i < me.slots ==> me.clientList[i] == null
    {
      var name := if numeric >= NUMNICKBASE then Digits(numeric, 2) else [Convert2Y(numeric)];
      me := new Server(name);
      serverList := new Server?[NN_MAX_SERVER](_ => null);
      numericsExtendidos := false;
      lastNn, lastNumericsExtendidos, advanced := 0, false, 0;
      new;
      ServerName(numeric);
      SetYXXCapacity(capacity);
    }

    /** `SetYXXCapacity`, at the start or later; a capacity that is too large stops the server. */
    method SetYXXCapacity(capacity: nat)
      requires serverList.Length == NN_MAX_SERVER && lastNn == advanced % Range(lastNumericsExtendidos)
      requires forall s :: s in serverList[..] && s != null ==> s.slots > 0 && s.clientList.Length == s.slots
      requires (|me.yxx| == 1 || |me.yxx| == 2) && Value(me.yxx) < NN_MAX_SERVER && NUL !in me.yxx
      requires |me.yxx| == 2 <==> Value(me.yxx) >= NUMNICKBASE
      requires capacity <= if |me.yxx| == 2 then NN_MAX_CLIENT_EXT else NN_MAX_CLIENT_SHORT
      modifies this`numericsExtendidos, serverList, me
      ensures Valid() && fresh(me.clientList) && me.slots >= capacity && Value(me.nnCapacity) == me.slots - 1
      ensures me.yxx == old(me.yxx) && forall i :: 0 <= i < me.slots ==> me.clientList[i] == null
    {
      hide PowerOfTwo, Digits, Value, Power, Least;
      var maxClients := RoundCapacity(capacity);
      var numeric := Base64ToInt(me.yxx);
      numericsExtendidos := numeric >= NUMNICKBASE;
      ClientPowers();
      Powers();
      AtMost(maxClients, capacity, MaxClient());
      PowersDivide(maxClients, MaxClient());
      CapacityReads(maxClients - 1, NumericDigits());
      me.nnCapacity := Digits(maxClients - 1, NumericDigits());
      me.slots := maxClients;
      me.clientList := new Client?[maxClients](_ => null);
      serverList[numeric] := me;
    }

    /** A numeric leads to this client, or to none. Of a single character the digits of the client are those behind it. */
    ghost predicate Finds(yxx: seq<char>, behind: seq<char>, c: Client?)
      requires Valid() && yxx != []
      reads this, serverList, serverList[..], me, set s | s in serverList[..] && s != null :: s.clientList
    {
      var s := serverList[ServerIndex(yxx)];
      if s == null then c == null
      else c == s.clientList[SlotOf(Value(if |yxx| == 1 then behind else ClientPart(yxx)) % UINT_RANGE, s.slots)]
    }

    /** `findNUser`; `behind` is what stands in memory behind the terminator of `yxx`. */
    method FindNUser(yxx: seq<char>, behind: seq<char>) returns (c: Client?)
      requires Valid() && IsCString(yxx) && IsCString(behind)
      ensures yxx == [] ==> c == null
      ensures yxx != [] ==> Finds(yxx, behind, c)
    {
      if |yxx| == 0 {
        return null;
      }
      if |yxx| == 5 {
        var server := FindXNServer(yxx);
        if server != null {
          var v := Base64ToInt(yxx[2..]);
          return server.clientList[SlotOf(v, server.slots)];
        }
      } else {
        var server := FindNServer(yxx);
        if server != null {
          // The terminator itself counts as a digit 0.
          var digits := if |yxx| == 1 then behind else yxx[1..];
          var v := 0;
          if digits != [] {
            v := Base64ToInt(digits);
          }
          return server.clientList[SlotOf(v, server.slots)];
        }
      }
      return null;
    }

    /** `FindNServer`: by a server's numeric or by a whole numeric that starts with one. */
    method FindNServer(numeric: seq<char>) returns (s: Server?)
      requires Valid() && IsCString(numeric)
      ensures numeric == [] ==> s == null
      ensures numeric != [] ==> s == serverList[ServerIndex(numeric)]
    {
      if |numeric| == 0 {
        return null;
      }
      if |numeric| < 3 {
        var i := Base64ToInt(numeric);
        assert i == ServerIndex(numeric);
        return serverList[i];
      } else if |numeric| == 3 {
        return serverList[Convert2N(numeric[0])];
      }
      s := FindXNServer(numeric);
    }

    method FindXNServer(numeric: seq<char>) returns (s: Server?)
      requires Valid() && IsCString(numeric) && |numeric| > 3
      ensures s == serverList[ServerIndex(numeric)]
    {
      var i := Base64ToInt(numeric[..2]);
      assert i == ServerIndex(numeric);
      s := serverList[i];
    }

    /** Advance the counter to the next free slot; give up after having tried every numeric. */
    method NextFree() returns (ok: bool)
      requires Valid() && lastNumericsExtendidos == numericsExtendidos
      modifies this`lastNn, this`advanced
      ensures Valid() && old(advanced) <= advanced
      ensures ok <==> exists i :: 0 <= i < me.slots && me.clientList[i] == null
      ensures ok ==> me.clientList[SlotOf(lastNn, me.slots)] == null
      ensures forall n {:trigger SlotOf(n, me.slots)} :: old(advanced) <= n < advanced ==> me.clientList[SlotOf(n, me.slots)] != null
    {
      hide SlotOf, Value;
      var count := 0;
      ghost var slots, max := me.slots, MaxClient();
      SlotOfRest(advanced, max, slots);
      while me.clientList[SlotOf(lastNn, me.slots)] != null
        invariant 0 <= count < max && advanced == old(advanced) + count
        invariant lastNn == advanced % max && SlotOf(lastNn, slots) == SlotOf(advanced, slots)
        invariant forall n {:trigger SlotOf(n, slots)} :: old(advanced) <= n < advanced ==> me.clientList[SlotOf(n, slots)] != null
        decreases max - count
      {
        count := count + 1;
        if count == MaxClient() {
          AllTaken(me.clientList, old(advanced), slots, advanced + 1);
          return false;
        }
        Advance(advanced, max);
        advanced := advanced + 1;
        SlotOfRest(advanced, max, slots);
        lastNn := if lastNn + 1 == MaxClient() then 0 else lastNn + 1;
      }
      ok := true;
    }

    /** Where the search begins: at the counter, or at the next whole turn once the range has changed. */
    ghost function Start(): nat
      reads this
    {
      if numericsExtendidos == lastNumericsExtendidos then advanced else (advanced / MaxClient() + 1) * MaxClient()
    }

    /** After a change of the range the counter begins again. */
    method FollowRange()
      requires Valid()
      modifies this`lastNn, this`lastNumericsExtendidos, this`advanced
      ensures Valid() && lastNumericsExtendidos == numericsExtendidos && old(advanced) <= advanced
      ensures advanced == old(Start()) && (old(lastNumericsExtendidos) != numericsExtendidos ==> lastNn == 0)
    {
      if numericsExtendidos != lastNumericsExtendidos {
        lastNumericsExtendidos := numericsExtendidos;
        lastNn := 0;
        NextTurn(advanced, MaxClient());
        advanced := (advanced / MaxClient() + 1) * MaxClient();
      }
    }

    /**
     `SetLocalNumNick`: the next free slot from the counter on. `ticket` is the number of steps the
     counter had made when the numeric was issued.
     */
    method SetLocalNumNick(cptr: Client) returns (ok: bool, ghost ticket: nat)
      requires Valid()
      modifies this`lastNn, this`lastNumericsExtendidos, this`advanced, me.clientList, cptr
      ensures Valid() && me.slots == old(me.slots) && me.clientList == old(me.clientList)
      ensures ok <==> exists i :: 0 <= i < me.slots && old(me.clientList[i]) == null
      ensures !ok ==> me.clientList[..] == old(me.clientList[..])
      ensures ok ==> cptr.yxx == Digits(ticket % MaxClient(), NumericDigits()) && old(advanced) <= old(Start()) <= ticket == advanced - 1
      ensures forall n {:trigger SlotOf(n, me.slots)} :: ok && old(Start()) <= n < ticket ==> old(me.clientList[..])[SlotOf(n, me.slots)] != null
      ensures ok ==> var i := SlotOf(ticket % MaxClient(), me.slots);
                     old(me.clientList[i]) == null && me.clientList[..] == old(me.clientList[..])[i := cptr]
      ensures ok ==> Finds(me.yxx + cptr.yxx, [], cptr)
    {
      hide SlotOf, Value, Digits, Power;
      FollowRange();
      ok := NextFree();
      if !ok {
        return false, 0;
      }
      ticket := advanced;
      me.clientList[SlotOf(lastNn, me.slots)] := cptr;
      cptr.yxx := Digits(lastNn, NumericDigits());
      Powers();
      FindsOwn(me.yxx, lastNn, NumericDigits());
      Advance(advanced, MaxClient());
      advanced := advanced + 1;
      lastNn := if lastNn + 1 == MaxClient() then 0 else lastNn + 1;
    }

    /** `RemoveYXXClient`: the slot is free again; an empty numeric means there is none. */
    method RemoveYXXClient(server: Server, yxx: seq<char>)
      requires Valid() && server in serverList[..] && IsCString(yxx)
      modifies server.clientList
      ensures yxx == [] ==> server.clientList[..] == old(server.clientList[..])
      ensures yxx != [] ==> server.clientList[..] == old(server.clientList[..])[SlotOf(Value(yxx) % UINT_RANGE, server.slots) := null]
    {
      if yxx != [] {
        var v := Base64ToInt(yxx);
        server.clientList[SlotOf(v, server.slots)] := null;
      }
    }
  }

  /** Which server a numeric belongs to. */
  /** How many numerics a local client can get, with short or with extended numerics. */
  function Range(extended: bool): (n: nat)
    ensures n > 0
  {
    if extended then NN_MAX_CLIENT_EXT else NN_MAX_CLIENT_SHORT
  }

  lemma NextTurn(n: nat, max: nat)
    requires max > 0
    ensures var t := (n / max + 1) * max; t > n && t % max == 0
  {
    var q := n / max;
    Quotient((q + 1) * max, max, q + 1, 0);
  }

  function ServerIndex(yxx: seq<char>): (i: nat)
    requires yxx != []
    ensures i < NN_MAX_SERVER
  {
    Powers();
    ValueBound(yxx);
    PowerMonotone(1, 2);
    if |yxx| < 3 then
      Value(yxx)
    else if |yxx| == 3 then
      Convert2N(yxx[0])
    else
      ValueBound(yxx[..2]);
      Value(yxx[..2])
  }

  /** Which part of a numeric is the client's. */
  function ClientPart(yxx: seq<char>): seq<char>
    requires |yxx| >= 2
  {
    if |yxx| == 5 then yxx[2..] else yxx[1..]
  }

  /** A server's numeric is its number in one digit or two. */
  lemma ServerName(numeric: nat)
    requires numeric < NN_MAX_SERVER
    ensures Value(if numeric >= NUMNICKBASE then Digits(numeric, 2) else [Convert2Y(numeric)]) == numeric
  {
    Powers();
    if numeric >= NUMNICKBASE {
      ValueOfDigits(numeric, 2);
      Quotient(numeric, Power(2), 0, numeric);
    } else {
      DigitRoundTrip(numeric, 'A');
      assert [Convert2Y(numeric)][..0] == [];
    }
  }

  lemma CapacityReads(v: nat, digits: nat)
    requires v < Power(digits)
    ensures Value(Digits(v, digits)) == v
  {
    ValueOfDigits(v, digits);
    Quotient(v, Power(digits), 0, v);
  }

  lemma AllTaken(list: array<Client?>, start: nat, slots: nat, end: nat)
    requires list.Length == slots > 0 && start + slots <= end
    requires forall n {:trigger SlotOf(n, slots)} :: start <= n < end ==> list[SlotOf(n, slots)] != null
    ensures forall i :: 0 <= i < slots ==> list[i] != null
  {
    forall i | 0 <= i < slots ensures list[i] != null {
      var n := PassesEverySlot(start, slots, i);
    }
  }

  /** Server numeric and client numeric together lead back to the server and the slot. */
  lemma FindsOwn(server: seq<char>, v: nat, digits: nat)
    requires |server| + 1 == digits && (digits == 2 || digits == 3) && v < Power(digits)
    ensures ServerIndex(server + Digits(v, digits)) == Value(server)
    ensures Value(ClientPart(server + Digits(v, digits))) % UINT_RANGE == v
  {
    hide Digits, Power, Convert2N;
    var s := server + Digits(v, digits);
    CapacityReads(v, digits);
    assert ClientPart(s) == Digits(v, digits);
    Powers();
    Quotient(v, UINT_RANGE, 0, v);
    if digits == 2 {
      OneDigit(server);
      assert server[..1] == server;
    } else {
      assert s[..2] == server;
    }
  }
}
