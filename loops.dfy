/** The shape both parsers share: `for i in range(n)` whose body reads from
    a file cursor, where a read that raises ends the loop and propagates. */
module Loops {
  import opened Outcomes
  import opened Ue4Strings

  /** How many times `for i in range(n)` runs. */
  function Iterations(n: int): (k: nat)
    ensures n >= 0 ==> k == n
    ensures n < 0 ==> k == 0
  {
    if n < 0 then 0 else n
  }

  /** Where a loop of reads stands: what it has read so far, and either the
      cursor after it or the failure that ended it. */
  datatype Scan<+T> = Scan(items: seq<T>, status: Result<nat>)

  /** What the parser returns after its loop: `True` when the loop ran to its
      end, or the failure it raised. */
  function Finished<T>(scan: Scan<T>): (r: Result<bool>)
    ensures r == Ok(true) <==> scan.status.Ok?
    ensures r.Err? <==> scan.status.Err?
  {
    if scan.status.Err? then Err(scan.status.error) else Ok(true)
  }

  /** The loop after `i` turns, started at cursor `p0`, where `turn(pos)` is
      what one turn reads at cursor `pos` and where it leaves the cursor. */
  function Loop<T>(turn: nat -> Step<T>, p0: nat, i: nat): (r: Scan<T>)
    ensures r.status.Ok? ==> |r.items| == i
    ensures r.status.Err? ==> |r.items| < i
  {
    if i == 0 then Scan([], Ok(p0))
    else
      var prev := Loop(turn, p0, i - 1);
      if prev.status.Err? then prev
      else
        var s := turn(prev.status.value);
        match s.outcome
        case Err(e) => Scan(prev.items, Err(e))
        case Ok(t) => Scan(prev.items + [t], Ok(s.pos))
  }

  lemma LoopStaysFailed<T>(turn: nat -> Step<T>, p0: nat, k: nat)
    requires 0 < k && Loop(turn, p0, k - 1).status.Err?
    ensures Loop(turn, p0, k) == Loop(turn, p0, k - 1)
  {
  }

  /** Once a turn has raised, later turns change nothing. */
  lemma {:induction false} LoopStops<T>(turn: nat -> Step<T>, p0: nat, i: nat, j: nat)
    requires i <= j && Loop(turn, p0, i).status.Err?
    ensures Loop(turn, p0, j) == Loop(turn, p0, i)
    decreases j
  {
    if j > i {
      LoopStops(turn, p0, i, j - 1);
      LoopStaysFailed(turn, p0, j);
    }
  }

  /** A turn that reads `t` appends it and moves the cursor on. */
  lemma LoopGrows<T>(turn: nat -> Step<T>, p0: nat, i: nat, pos: nat, t: T, next: nat)
    requires Loop(turn, p0, i).status == Ok(pos)
    requires turn(pos) == Step(Ok(t), next)
    ensures Loop(turn, p0, i + 1) == Scan(Loop(turn, p0, i).items + [t], Ok(next))
  {
  }

  /** A turn that raises ends the loop, however many turns were left, with
      what the turns before it read. */
  lemma LoopFails<T>(turn: nat -> Step<T>, p0: nat, i: nat, j: nat, pos: nat)
    requires i < j && Loop(turn, p0, i).status == Ok(pos)
    requires turn(pos).outcome.Err?
    ensures Loop(turn, p0, j) == Scan(Loop(turn, p0, i).items, Err(turn(pos).outcome.error))
  {
    LoopStops(turn, p0, i + 1, j);
  }
}
