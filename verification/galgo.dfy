/**
  A greyhound (Galgo) of part 2, run sequentially: the process-wide pause
  flag with its `pausar`/`continuar` updates and the `verificarPausa` guard,
  and the `corra` loop that moves the dog along its lane (Carril) one step
  at a time and, on the last step, takes its arrival position from the
  shared register.

  The control surface acts on the pause flag while a dog runs. Its actions
  are an input here: a schedule of `Pause` and `Resume` events, interleaved
  with `Tick`s, each Tick being a moment at which the dog's thread checks
  the flag and, when the flag is down, takes one step.
*/
module Galgo {
  import opened JavaValues
  import opened RegistroLlegada

  // ---------------------------------------------------------------------------
  // The pause flag
  // ---------------------------------------------------------------------------

  /** The static `pausado` flag shared by every dog. */
  datatype PauseGate = PauseGate(pausado: bool)

  /** pausar(): raise the flag. */
  function Pausar(gate: PauseGate): (gate': PauseGate)
    ensures gate'.pausado
  {
    PauseGate(true)
  }

  /** continuar(): lower the flag (and wake the waiting dogs). */
  function Continuar(gate: PauseGate): (gate': PauseGate)
    ensures !gate'.pausado
  {
    PauseGate(false)
  }

  /** verificarPausa() as a guard: it lets its caller go on only when the flag
      is down; while the flag is up the caller stays in `wait()`. */
  function VerificarPausa(gate: PauseGate): (mayStep: bool)
    ensures mayStep <==> !gate.pausado
  {
    !gate.pausado
  }

  /** Pausing twice is pausing once, whatever the flag was before. */
  lemma PausarIdempotent(gate: PauseGate)
    ensures Pausar(Pausar(gate)) == Pausar(gate)
    ensures !VerificarPausa(Pausar(gate))
  {
  }

  /** Resuming twice is resuming once, whatever the flag was before. */
  lemma ContinuarIdempotent(gate: PauseGate)
    ensures Continuar(Continuar(gate)) == Continuar(gate)
    ensures VerificarPausa(Continuar(gate))
  {
  }

  /** What happens while a dog runs: the control surface pauses or resumes,
      or the dog's thread gets to check the flag. */
  datatype Control = Pause | Resume | Tick

  function ApplyControl(gate: PauseGate, e: Control): PauseGate {
    match e
    case Pause => Pausar(gate)
    case Resume => Continuar(gate)
    case Tick => gate
  }

  /** The flag after a schedule of events. */
  function GateAfter(gate: PauseGate, es: seq<Control>): PauseGate
    decreases |es|
  {
    if es == [] then gate
    else ApplyControl(GateAfter(gate, es[..|es| - 1]), es[|es| - 1])
  }

  /** The Ticks of a schedule that find the flag down: the moments at which
      verificarPausa lets the dog through. */
  function OpenTicks(gate: PauseGate, es: seq<Control>): nat
    decreases |es|
  {
    if es == [] then 0
    else
      var init := es[..|es| - 1];
      OpenTicks(gate, init) + (if es[|es| - 1].Tick? && VerificarPausa(GateAfter(gate, init)) then 1 else 0)
  }

  function CountTicks(es: seq<Control>): nat
    decreases |es|
  {
    if es == [] then 0
    else CountTicks(es[..|es| - 1]) + (if es[|es| - 1].Tick? then 1 else 0)
  }

  /** A longer schedule lets the dog through at least as often. */
  lemma {:induction false} OpenTicksPrefix(gate: PauseGate, es: seq<Control>, k: nat)
    requires k <= |es|
    ensures OpenTicks(gate, es[..k]) <= OpenTicks(gate, es)
    decreases |es|
  {
    if k < |es| {
      var init := es[..|es| - 1];
      assert init[..k] == es[..k];
      OpenTicksPrefix(gate, init, k);
    } else {
      assert es[..k] == es;
    }
  }

  /** While the flag is up and nobody resumes, no Tick lets a dog through:
      no step is taken during a pause, however long it lasts. */
  lemma {:induction false} PausedLetsNoneThrough(gate: PauseGate, es: seq<Control>)
    requires gate.pausado
    requires forall j :: 0 <= j < |es| ==> !es[j].Resume?
    ensures OpenTicks(gate, es) == 0
    ensures GateAfter(gate, es).pausado
    decreases |es|
  {
    if es != [] {
      PausedLetsNoneThrough(gate, es[..|es| - 1]);
    }
  }

  /** While the flag is down and nobody pauses, every Tick lets a dog through. */
  lemma {:induction false} OpenLetsEveryTickThrough(gate: PauseGate, es: seq<Control>)
    requires !gate.pausado
    requires forall j :: 0 <= j < |es| ==> !es[j].Pause?
    ensures OpenTicks(gate, es) == CountTicks(es)
    ensures !GateAfter(gate, es).pausado
    decreases |es|
  {
    if es != [] {
      OpenLetsEveryTickThrough(gate, es[..|es| - 1]);
    }
  }

  // ---------------------------------------------------------------------------
  // The lane and the dog
  // ---------------------------------------------------------------------------

  /** A lane, abstracted to its length, the indices passed to setPasoOn so
      far, and how many times finish() was called. */
  datatype Carril = Carril(size: nat, pasosOn: seq<int>, finishes: nat)

  /** A dog: its name, the step it is on, and its lane. */
  datatype Galgo = Galgo(name: string, paso: nat, carril: Carril)

  /** The constructor: a new dog stands at step 0 of its lane. */
  function NewGalgo(carril: Carril, name: string): (g: Galgo)
    ensures g.paso == 0 && g.carril == carril && g.name == name
  {
    Galgo(name, 0, carril)
  }

  function Min(x: int, y: int): int { if x <= y then x else y }

  /** corra(): while the dog has not reached the end of its lane, wait for the
      flag to be down, mark the current step and move on; on the step that
      reaches the end, call finish(), take one position from the register,
      and record the dog as winner when that position is 1.

      Returned: the dog and the register afterwards, and the position the dog
      took, if it finished. The run stops early only when the schedule runs
      out, the dog then still waiting at some step. */
  method Corra(g: Galgo, reg: Registro, gate: PauseGate, events: seq<Control>)
    returns (h: Galgo, reg': Registro, posicion: Option<Int32>)
    ensures h.name == g.name && h.carril.size == g.carril.size
    // bounds: the dog moves forward, never past the end of the lane
    ensures g.paso <= h.paso
    ensures g.paso <= g.carril.size ==> h.paso <= g.carril.size
    ensures g.paso > g.carril.size ==> h == g
    // one step per Tick that finds the flag down, until the end of the lane
    ensures g.paso <= g.carril.size ==> h.paso == Min(g.carril.size, g.paso + OpenTicks(gate, events))
    // setPasoOn was called with the indices g.paso, ..., h.paso - 1, in order
    ensures h.carril.pasosOn == g.carril.pasosOn + Consecutive(g.paso, h.paso - g.paso)
    // registration happens exactly when the last step is taken, and only then
    ensures posicion.Some? <==> g.paso < g.carril.size == h.paso
    ensures posicion.Some? ==> h.carril.finishes == g.carril.finishes + 1
    ensures posicion.Some? ==> posicion.value == GetUltimaPosicionAlcanzada(reg)
    ensures posicion.Some? ==> GetUltimaPosicionAlcanzada(reg') == Inc32(GetUltimaPosicionAlcanzada(reg))
    ensures posicion.None? ==> reg' == reg && h.carril.finishes == g.carril.finishes
    // the dog records itself as winner exactly when it took position 1
    ensures GetGanador(reg') == (if posicion == Some(1) then Some(g.name) else GetGanador(reg))
    // a pause that is never lifted holds the dog where it stands
    ensures gate.pausado && (forall j :: 0 <= j < |events| ==> !events[j].Resume?) ==> h == g && reg' == reg
    // with the flag down and never raised, enough Ticks bring the dog home
    ensures && !gate.pausado && (forall j :: 0 <= j < |events| ==> !events[j].Pause?)
            && g.paso <= g.carril.size <= g.paso + CountTicks(events)
            ==> h.paso == g.carril.size
  {
    var paso := g.paso;
    var carril := g.carril;
    var current := gate;
    var k := 0;
    reg' := reg;
    posicion := None;
    while paso < carril.size && k < |events|
      invariant 0 <= k <= |events|
      invariant carril.size == g.carril.size
      invariant g.paso <= paso
      invariant g.paso < g.carril.size ==> paso <= carril.size
      invariant g.paso >= g.carril.size ==> k == 0
      invariant current == GateAfter(gate, events[..k])
      invariant paso == g.paso + OpenTicks(gate, events[..k])
      invariant carril.pasosOn == g.carril.pasosOn + Consecutive(g.paso, paso - g.paso)
      invariant posicion.Some? <==> g.paso < carril.size == paso
      invariant posicion.Some? ==> carril.finishes == g.carril.finishes + 1
      invariant posicion.Some? ==> posicion.value == GetUltimaPosicionAlcanzada(reg)
      invariant posicion.Some? ==> GetUltimaPosicionAlcanzada(reg') == Inc32(GetUltimaPosicionAlcanzada(reg))
      invariant posicion.None? ==> reg' == reg && carril.finishes == g.carril.finishes
      invariant GetGanador(reg') == (if posicion == Some(1) then Some(g.name) else GetGanador(reg))
    {
      var e := events[k];
      assert events[..k + 1] == events[..k] + [e];
      assert (events[..k] + [e])[..k] == events[..k];
      match e {
        case Pause =>
          current := Pausar(current);
        case Resume =>
          current := Continuar(current);
        case Tick =>
          if VerificarPausa(current) {
            carril := carril.(pasosOn := carril.pasosOn + [paso]);
            assert Consecutive(g.paso, paso + 1 - g.paso) == Consecutive(g.paso, paso - g.paso) + [paso];
            paso := paso + 1;
            if paso == carril.size {
              carril := carril.(finishes := carril.finishes + 1);
              var (ubicacion, after) := GetYSetUltimaPosicion(reg');
              reg' := after;
              posicion := Some(ubicacion);
              if ubicacion == 1 {
                reg' := SetGanador(reg', Some(g.name));
              }
            }
          }
      }
      k := k + 1;
    }
    h := Galgo(g.name, paso, carril);
    if paso < carril.size {
      assert events[..k] == events;
    } else {
      OpenTicksPrefix(gate, events, k);
    }
    if gate.pausado && (forall j :: 0 <= j < |events| ==> !events[j].Resume?) {
      PausedLetsNoneThrough(gate, events);
    }
    if !gate.pausado && (forall j :: 0 <= j < |events| ==> !events[j].Pause?) {
      OpenLetsEveryTickThrough(gate, events);
    }
  }
}
