/**
  The arrival register of part 2: a counter of the next arrival position,
  starting at 1, and the name of the winner. Every counter method of the
  Java class is `synchronized`, so the calls made on one register happen one
  after another; a sequence of calls is therefore a faithful account of any
  run, whichever threads made them.
*/
module RegistroLlegada {
  import opened JavaValues

  /** ultimaPosicionAlcanzada is the position the next finisher will receive;
      ganador is `None` while the winner field is still null. */
  datatype Registro = Registro(ultimaPosicionAlcanzada: Int32, ganador: Option<string>)

  function GetGanador(r: Registro): Option<string> { r.ganador }

  function GetUltimaPosicionAlcanzada(r: Registro): Int32 { r.ultimaPosicionAlcanzada }

  /** A new register: position 1 is the next to be handed out, and nobody has won. */
  function NewRegistro(): (r: Registro)
    ensures GetUltimaPosicionAlcanzada(r) == 1
    ensures GetGanador(r) == None
  {
    Registro(1, None)
  }

  /** setGanador replaces the winner and leaves the counter alone. */
  function SetGanador(r: Registro, ganador: Option<string>): (r': Registro)
    ensures GetGanador(r') == ganador
    ensures GetUltimaPosicionAlcanzada(r') == GetUltimaPosicionAlcanzada(r)
  {
    r.(ganador := ganador)
  }

  /** setUltimaPosicionAlcanzada replaces the counter and leaves the winner alone. */
  function SetUltimaPosicionAlcanzada(r: Registro, k: Int32): (r': Registro)
    ensures GetUltimaPosicionAlcanzada(r') == k
    ensures GetGanador(r') == GetGanador(r)
  {
    r.(ultimaPosicionAlcanzada := k)
  }

  /** getYSetUltimaPosicion: hands out the current position and moves the
      counter on by one (with Java's `int` wrap-around); the winner is untouched. */
  function GetYSetUltimaPosicion(r: Registro): (res: (Int32, Registro))
    ensures res.0 == GetUltimaPosicionAlcanzada(r)
    ensures GetUltimaPosicionAlcanzada(res.1) == Inc32(res.0)
    ensures GetUltimaPosicionAlcanzada(r) < IntMax ==> GetUltimaPosicionAlcanzada(res.1) == res.0 + 1
    ensures GetGanador(res.1) == GetGanador(r)
  {
    var posicion := r.ultimaPosicionAlcanzada;
    (posicion, r.(ultimaPosicionAlcanzada := Inc32(posicion)))
  }

  // ---------------------------------------------------------------------------
  // Sequences of calls on one register
  // ---------------------------------------------------------------------------

  /** The public methods of the register, as calls. */
  datatype Call =
    | CallGetGanador
    | CallSetGanador(ganador: Option<string>)
    | CallGetUltimaPosicionAlcanzada
    | CallSetUltimaPosicionAlcanzada(k: Int32)
    | CallGetYSetUltimaPosicion

  /** What a call gives back: the winner, the counter, a position handed out,
      or nothing (for the setters). */
  datatype Reply = Winner(ganador: Option<string>) | Counter(value: Int32) | Position(posicion: Int32) | Void

  /** A getter only reads the register. */
  predicate IsObserver(c: Call) {
    c.CallGetGanador? || c.CallGetUltimaPosicionAlcanzada?
  }

  function Apply(r: Registro, c: Call): (Registro, Reply) {
    match c
    case CallGetGanador => (r, Winner(GetGanador(r)))
    case CallSetGanador(g) => (SetGanador(r, g), Void)
    case CallGetUltimaPosicionAlcanzada => (r, Counter(GetUltimaPosicionAlcanzada(r)))
    case CallSetUltimaPosicionAlcanzada(k) => (SetUltimaPosicionAlcanzada(r, k), Void)
    case CallGetYSetUltimaPosicion =>
      var (p, r') := GetYSetUltimaPosicion(r);
      (r', Position(p))
  }

  /** Performs the calls in order, collecting the replies. */
  function Replay(r: Registro, cs: seq<Call>): (out: (Registro, seq<Reply>))
    ensures |out.1| == |cs|
    decreases |cs|
  {
    if cs == [] then (r, [])
    else
      var (r1, reply) := Apply(r, cs[0]);
      var (r2, replies) := Replay(r1, cs[1..]);
      (r2, [reply] + replies)
  }

  /** The positions handed out, in the order they were handed out. */
  function Positions(replies: seq<Reply>): seq<int>
    decreases |replies|
  {
    if replies == [] then []
    else if replies[0].Position? then [replies[0].posicion] + Positions(replies[1..])
    else Positions(replies[1..])
  }

  /** How many calls are getYSetUltimaPosicion. */
  function CountTakes(cs: seq<Call>): nat
    decreases |cs|
  {
    if cs == [] then 0
    else (if cs[0].CallGetYSetUltimaPosicion? then 1 else 0) + CountTakes(cs[1..])
  }

  /** The calls that change the register, in their original order. */
  function Mutators(cs: seq<Call>): seq<Call>
    decreases |cs|
  {
    if cs == [] then []
    else if IsObserver(cs[0]) then Mutators(cs[1..])
    else [cs[0]] + Mutators(cs[1..])
  }

  /** start, start + 1, ..., start + n - 1. */
  function Consecutive(start: int, n: nat): (s: seq<int>)
    ensures |s| == n && forall k :: 0 <= k < n ==> s[k] == start + k
  {
    seq(n, k => start + k)
  }

  /** Without a call to the counter setter, and as long as the counter does
      not wrap, the positions handed out are consecutive from the counter's
      value, and the counter ends one past the last of them. Getters and
      setGanador may be interleaved anywhere. */
  lemma {:induction false} PositionsAreConsecutive(r: Registro, cs: seq<Call>)
    requires forall j :: 0 <= j < |cs| ==> !cs[j].CallSetUltimaPosicionAlcanzada?
    requires GetUltimaPosicionAlcanzada(r) + CountTakes(cs) <= IntMax
    ensures Positions(Replay(r, cs).1) == Consecutive(GetUltimaPosicionAlcanzada(r), CountTakes(cs))
    ensures GetUltimaPosicionAlcanzada(Replay(r, cs).0) == GetUltimaPosicionAlcanzada(r) + CountTakes(cs)
    decreases |cs|
  {
    if cs != [] {
      var (r1, reply) := Apply(r, cs[0]);
      var start := GetUltimaPosicionAlcanzada(r);
      var n := CountTakes(cs);
      PositionsAreConsecutive(r1, cs[1..]);
      var (r2, replies) := Replay(r1, cs[1..]);
      assert Replay(r, cs).1 == [reply] + replies;
      assert ([reply] + replies)[1..] == replies;
      if cs[0].CallGetYSetUltimaPosicion? {
        assert Consecutive(start, n) == [start] + Consecutive(start + 1, n - 1);
      }
    }
  }

  /** A fresh register asked N times hands out exactly 1, 2, ..., N: pairwise
      distinct, increasing, without gaps; afterwards the counter reads N + 1,
      so the counter minus one is the number of finishers, and nobody has been
      made winner by the register itself. */
  lemma FreshRegisterHandsOutOneToN(n: nat)
    requires n < IntMax
    ensures var (r, replies) := Replay(NewRegistro(), seq(n, _ => CallGetYSetUltimaPosicion));
      && Positions(replies) == Consecutive(1, n)
      && (forall j, k :: 0 <= j < k < n ==> Positions(replies)[j] < Positions(replies)[k])
      && GetUltimaPosicionAlcanzada(r) - 1 == n
      && GetGanador(r) == None
  {
    var cs := seq(n, _ => CallGetYSetUltimaPosicion);
    TakesOnlyCount(NewRegistro(), cs);
    PositionsAreConsecutive(NewRegistro(), cs);
    WinnerUntouchedByTakes(NewRegistro(), cs);
  }

  /** A sequence of nothing but getYSetUltimaPosicion calls hands out one
      position per call, from any register. */
  lemma {:induction false} TakesOnlyCount(r: Registro, cs: seq<Call>)
    requires forall j :: 0 <= j < |cs| ==> cs[j].CallGetYSetUltimaPosicion?
    ensures |Positions(Replay(r, cs).1)| == |cs|
    ensures CountTakes(cs) == |cs|
    decreases |cs|
  {
    if cs != [] {
      var (r1, reply) := Apply(r, cs[0]);
      TakesOnlyCount(r1, cs[1..]);
      var rest := Replay(r1, cs[1..]).1;
      assert Replay(r, cs).1 == [reply] + rest;
      assert ([reply] + rest)[1..] == rest;
    }
  }

  /** Calls other than setGanador never change the winner. */
  lemma {:induction false} WinnerUntouchedByTakes(r: Registro, cs: seq<Call>)
    requires forall j :: 0 <= j < |cs| ==> !cs[j].CallSetGanador?
    ensures GetGanador(Replay(r, cs).0) == GetGanador(r)
    decreases |cs|
  {
    if cs != [] {
      WinnerUntouchedByTakes(Apply(r, cs[0]).0, cs[1..]);
    }
  }

  /** The getters change no state: dropping every getter call from a sequence
      leaves the final register and the positions handed out as they were. */
  lemma {:induction false} ObserversChangeNothing(r: Registro, cs: seq<Call>)
    ensures Replay(r, Mutators(cs)).0 == Replay(r, cs).0
    ensures Positions(Replay(r, Mutators(cs)).1) == Positions(Replay(r, cs).1)
    decreases |cs|
  {
    if cs != [] {
      var (r1, reply) := Apply(r, cs[0]);
      ObserversChangeNothing(r1, cs[1..]);
      var rest := Replay(r1, cs[1..]);
      assert Replay(r, cs) == (rest.0, [reply] + rest.1);
      assert ([reply] + rest.1)[1..] == rest.1;
      if !IsObserver(cs[0]) {
        var ms := [cs[0]] + Mutators(cs[1..]);
        assert ms[0] == cs[0] && ms[1..] == Mutators(cs[1..]);
        var restM := Replay(r1, Mutators(cs[1..]));
        assert Replay(r, ms) == (restM.0, [reply] + restM.1);
        assert ([reply] + restM.1)[1..] == restM.1;
      }
    }
  }

  /** After setUltimaPosicionAlcanzada(k) the next position handed out is k;
      setGanador in between does not disturb it. */
  lemma SetCounterThenTake(r: Registro, k: Int32, g: Option<string>)
    ensures Replay(r, [CallSetUltimaPosicionAlcanzada(k), CallGetYSetUltimaPosicion]).1[1] == Position(k)
    ensures Replay(r, [CallSetUltimaPosicionAlcanzada(k), CallSetGanador(g), CallGetYSetUltimaPosicion]).1[2] == Position(k)
  {
    var cs := [CallSetUltimaPosicionAlcanzada(k), CallSetGanador(g), CallGetYSetUltimaPosicion];
    var r1 := SetUltimaPosicionAlcanzada(r, k);
    var r2 := SetGanador(r1, g);
    assert cs[1..] == [CallSetGanador(g), CallGetYSetUltimaPosicion];
    assert cs[1..][1..] == [CallGetYSetUltimaPosicion];
    assert Replay(r2, cs[1..][1..]).1[0] == Position(k);
    assert Replay(r1, cs[1..]).1[1] == Position(k);
    var cs2 := [CallSetUltimaPosicionAlcanzada(k), CallGetYSetUltimaPosicion];
    assert cs2[1..] == [CallGetYSetUltimaPosicion];
  }
}
