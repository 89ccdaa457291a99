# lab2-arsw in Dafny: prime finder, arrival register, greyhound run loop

This project models the sequential core of a small multithreading lab:

- **Prime finder** (`PrimeFinderThread`, module `PrimeFinder`): the 6k±1
  trial-division test `isPrime` and `run`, which scans the closed range
  [a, b] and collects the primes it finds. `IsPrime` is proved equal to
  mathematical primality. `Run` is proved to append exactly the primes of
  [a, b], in strictly increasing order, and to leave the range untouched.
- **Arrival register** (`RegistroLlegada`, module `RegistroLlegada`): the
  position counter, which starts at 1, and the winner slot, with their
  getters and setters. Every counter method is `synchronized`, so any run is
  a sequence of calls. The model replays such sequences (`Replay`). From a
  fresh register, N calls to `getYSetUltimaPosicion` hand out exactly
  1, …, N, and the counter ends at N + 1.
- **Greyhound** (`Galgo`, module `Galgo`): the static pause flag with
  `pausar`/`continuar`, and `verificarPausa` as a guard. The `corra` loop
  moves the dog along its lane (`Carril`) one step at a time. On the final
  step it takes one position from the register, and it records itself as
  winner only for position 1. What the control surface does while the dog
  runs is an input: a schedule of `Pause`/`Resume` events and `Tick`s. At a
  `Tick` the dog's thread checks the flag and steps if the flag is down.
  A `Carril` is abstracted to its length, the log of `setPasoOn` indices and
  the number of `finish()` calls.
- Module `JavaValues` holds Java's 32-bit `int` (`Int32`), `int` increment
  with wrap-around (`Inc32`), and `Option` for nullable references.

The documentation of the two-argument `PrimeFinderThread` constructor says
primes are printed by default, but the code passes `false`
(parte1/src/main/java/edu/eci/arsw/primefinder/PrimeFinderThread.java:32-38).
The model follows the code.

Java's `%` truncates toward zero and Dafny's is Euclidean. Every `%` in the
model has a non-negative left operand and a positive divisor, so the two
agree.

The race driver resets the pause flag and makes a fresh register for each
race (parte2/src/main/java/arsw/threads/MainCanodromo.java:35-36). This is
why the register lemmas start from `NewRegistro()` and why `Corra` is
usually given an unpaused gate.

## Model

| member | source | states |
|---|---|---|
| PrimeFinder.IsPrimeCorrect | parte1/src/main/java/edu/eci/arsw/primefinder/PrimeFinderThread.java:80-102 | isPrime(n) holds exactly when n > 1 and no d with 1 < d < n divides n: the 6k±1 test is sound and complete |
| PrimeFinder.IsPrime | parte1/src/main/java/edu/eci/arsw/primefinder/PrimeFinderThread.java:87-102 | no n <= 1 is accepted; 2 and 3 are accepted; any n > 3 divisible by 2 or 3 is rejected; every rejection is sound (n is not prime). Completeness, and so equality with primality, is stated by IsPrimeCorrect |
| PrimeFinder.SixKLoop | parte1/src/main/java/edu/eci/arsw/primefinder/PrimeFinderThread.java:95-101 | the loop rejects only numbers that are not prime: whenever it returns false, n has a divisor strictly between 1 and n. Its verdict equal to primality is stated by SixKLoopCorrect |
| PrimeFinder.SixKLoopCorrect | parte1/src/main/java/edu/eci/arsw/primefinder/PrimeFinderThread.java:95-101 | from any round i = 6k - 1 with no divisor of n below i, the loop's verdict is n's primality |
| PrimeFinder.NoDivisorBelowRootIsPrime | parte1/src/main/java/edu/eci/arsw/primefinder/PrimeFinderThread.java:95 | stopping once i * i > n is safe: with no divisor below i, n is prime |
| PrimeFinder.NoDivisorBelowNextRound | parte1/src/main/java/edu/eci/arsw/primefinder/PrimeFinderThread.java:96 | testing only i and i + 2 in each round of six skips no divisor, because the other four candidates are multiples of 2 or 3 |
| PrimeFinder.LoopSquareFits | parte1/src/main/java/edu/eci/arsw/primefinder/PrimeFinderThread.java:95 | for n below 2147117569 every i * i the loop computes fits a Java int |
| PrimeFinder.NewPrimeFinderThread | parte1/src/main/java/edu/eci/arsw/primefinder/PrimeFinderThread.java:48-53 | getStartRange and getEndRange return the constructor's a and b; the print option is kept; no primes are collected yet |
| PrimeFinder.NewQuietPrimeFinderThread | parte1/src/main/java/edu/eci/arsw/primefinder/PrimeFinderThread.java:37-39 | the two-argument constructor gives the same range, printing off |
| PrimeFinder.Run | parte1/src/main/java/edu/eci/arsw/primefinder/PrimeFinderThread.java:64-77 | earlier primes are kept; the appended ones are exactly the primes of [a, b], strictly increasing, so without duplicates; nothing is appended when a > b; getStartRange/getEndRange read the same before and after |
| JavaValues.Inc32 | parte2/src/main/java/arsw/threads/RegistroLlegada.java:70 | the counter increment is addition of one modulo 2^32, and it increases the value unless it is the largest int |
| RegistroLlegada.NewRegistro | parte2/src/main/java/arsw/threads/RegistroLlegada.java:13-15 | a fresh register will hand out position 1 next and has no winner (null) |
| RegistroLlegada.SetGanador | parte2/src/main/java/arsw/threads/RegistroLlegada.java:31-33 | afterwards getGanador returns the new winner and the counter reads as before |
| RegistroLlegada.SetUltimaPosicionAlcanzada | parte2/src/main/java/arsw/threads/RegistroLlegada.java:54-56 | afterwards the counter reads k and the winner is as before |
| RegistroLlegada.GetYSetUltimaPosicion | parte2/src/main/java/arsw/threads/RegistroLlegada.java:68-72 | returns the counter's value before the call and leaves the counter one larger (wrapping at the largest int); the winner is untouched |
| RegistroLlegada.Replay | parte2/src/main/java/arsw/threads/RegistroLlegada.java:43-72 | a sequence of calls on one register yields exactly one reply per call |
| RegistroLlegada.PositionsAreConsecutive | parte2/src/main/java/arsw/threads/RegistroLlegada.java:68-72 | in any sequence of calls without the counter setter, the positions handed out are consecutive from the starting counter, with no repeats and no gaps, and the counter ends one past the last; getters and setGanador may come anywhere in between |
| RegistroLlegada.FreshRegisterHandsOutOneToN | parte2/src/main/java/arsw/threads/RegistroLlegada.java:68-72 | N calls on a fresh register hand out 1, 2, …, N, strictly increasing; afterwards the counter minus one is N and there is still no winner |
| RegistroLlegada.TakesOnlyCount | parte2/src/main/java/arsw/threads/RegistroLlegada.java:68-72 | from any register, a sequence made only of getYSetUltimaPosicion calls hands out exactly one position per call |
| RegistroLlegada.WinnerUntouchedByTakes | parte2/src/main/java/arsw/threads/RegistroLlegada.java:22-24 | only setGanador changes what getGanador returns |
| RegistroLlegada.ObserversChangeNothing | parte2/src/main/java/arsw/threads/RegistroLlegada.java:43-45 | dropping every getGanador and getUltimaPosicionAlcanzada call from a sequence changes neither the final register nor the positions handed out |
| RegistroLlegada.SetCounterThenTake | parte2/src/main/java/arsw/threads/RegistroLlegada.java:54-56 | after setUltimaPosicionAlcanzada(k) the next getYSetUltimaPosicion returns k, even with a setGanador in between |
| Galgo.Pausar | parte2/src/main/java/arsw/threads/Galgo.java:36-40 | after pausar the flag is up |
| Galgo.Continuar | parte2/src/main/java/arsw/threads/Galgo.java:50-55 | after continuar the flag is down |
| Galgo.PausarIdempotent | parte2/src/main/java/arsw/threads/Galgo.java:36-40 | pausing twice is the same as pausing once, and verificarPausa then holds the caller |
| Galgo.ContinuarIdempotent | parte2/src/main/java/arsw/threads/Galgo.java:50-55 | resuming twice is the same as resuming once, and verificarPausa then lets the caller through |
| Galgo.VerificarPausa | parte2/src/main/java/arsw/threads/Galgo.java:68-74 | the guard lets its caller through exactly when the flag is down. What it means over a schedule of pauses and resumes is stated by PausedLetsNoneThrough and OpenLetsEveryTickThrough |
| Galgo.OpenTicksPrefix | parte2/src/main/java/arsw/threads/Galgo.java:68-74 | a longer schedule lets the dog through at least as often as any of its prefixes |
| Galgo.PausedLetsNoneThrough | parte2/src/main/java/arsw/threads/Galgo.java:68-74 | while the flag is up and nobody calls continuar, verificarPausa lets no step through and the flag stays up |
| Galgo.OpenLetsEveryTickThrough | parte2/src/main/java/arsw/threads/Galgo.java:68-74 | while the flag is down and nobody calls pausar, every check lets a step through |
| Galgo.NewGalgo | parte2/src/main/java/arsw/threads/Galgo.java:23-28 | a new dog starts at step 0 on the lane and with the name it was given |
| Galgo.Corra | parte2/src/main/java/arsw/threads/Galgo.java:88-105 | the step stays within [initial step, lane size] and moves once per check that finds the flag down; setPasoOn gets the indices from the initial step to the final one, in order, each once; finish and getYSetUltimaPosicion happen exactly once, exactly when the last step is taken, and never on a lane of size 0; the dog becomes winner exactly when its position is 1; a pause that is never lifted leaves dog and register as they were; with the flag down, enough checks bring the dog to the end |

## Left out

- PrimeFinder.IsPrime: requires n < 2147117569 (46337²). From there on Java's `i * i` can overflow: it does when no candidate up to 46339 divides n (an even n, or 46337² itself, is rejected before that). After an overflow the loop keeps running past √n, and it can then reject primes: for 2147483647 the guard `i * i <= n` never fails, so the loop runs until i + 2 equals n and returns false. The class documentation says the test handles all cases correctly; the code does not, above this bound. Below it the model uses unbounded integers, and `LoopSquareFits` shows no overflow happens there.
- PrimeFinder.Run: requires b < 2147117569, for the same reason. This also excludes b = 2147483647, for which Java's `i <= b` never fails and the loop does not end.
- PrimeFinder.GetStartRange, PrimeFinder.GetEndRange, PrimeFinder.GetPrimes, RegistroLlegada.GetGanador and RegistroLlegada.GetUltimaPosicionAlcanzada are pure field reads without contracts of their own. What they return is stated in the contracts of the constructors, setters and `Run`.
- RegistroLlegada.PositionsAreConsecutive: assumes the counter does not wrap past 2147483647. `Inc32` models the wrap itself.
- Galgo.Corra: a `Tick` is the flag check plus the step that follows it, taken as one action. A `pausar` that lands during the 100 ms sleep after the check does not stop that step, in the model or in Java.
- Thread plumbing is not modelled: thread start/join, `Thread.sleep`, `wait`/`notifyAll` wake-ups, `volatile` visibility, interleavings between dogs, and `InterruptedException`. The one runner-to-runner fact kept is that register calls are serialized.
- `setGanador` is not `synchronized`. Which thread sees the winner, and when, cannot be stated sequentially.
- Console output is not modelled: the `printPrimes` printing and the thread banners in `run`, the `getRange` string, and the arrival message in `corra`. `displayPasos` (rendering) is not modelled either.
- The prime finder's demo driver (parte1/src/main/java/edu/eci/arsw/primefinder/Main.java) only does splitting, timing and output. The Swing wiring in parte2/src/main/java/arsw/threads/MainCanodromo.java and the `Canodromo`/`Carril` GUI classes are not part of this model. parte2/src/main/java/arsw/threads/RandomGenerator.java is a thin wrapper over `java.util.Random`.
