/** What several models share: optional results, bytes, 32-bit words and runs. */
module Common {

  datatype Option<T> = None | Some(value: T)

  type Byte = b: int | 0 <= b < 256

  const U32: nat := 0x1_0000_0000

  /** A number as a 32-bit word holds it. */
  function Wrap(x: int): (w: nat)
    ensures w < U32
  {
    x % U32
  }

  function Min(a: int, b: int): int { if a <= b then a else b }

  function Zeros(n: nat): seq<Byte> { seq(n, _ => 0) }

  /** `s` with `d` copied over it at `at`. */
  function Overwrite(s: seq<Byte>, at: nat, d: seq<Byte>): (r: seq<Byte>)
    requires at + |d| <= |s|
    ensures |r| == |s| && r[..at + |d|] == s[..at] + d
  {
    s[..at] + d + s[at + |d|..]
  }

  // ---------------------------------------------------------------------------
  // Runs

  /** An infinite run of a machine: its states and the actions between them. */
  datatype Run<S, A> = Run(state: nat -> S, act: nat -> A)

  ghost predicate Stepped<S(!new), A(!new)>(step: (S, A, S) -> bool, r: Run<S, A>, n: nat) {
    step(r.state(n), r.act(n), r.state(n + 1))
  }

  ghost predicate Steps<S(!new), A(!new)>(step: (S, A, S) -> bool, r: Run<S, A>) {
    forall n: nat :: Stepped(step, r, n)
  }

  ghost predicate Kept(good: nat -> bool, n: nat) { good(n) ==> good(n + 1) }

  /** What holds at one time and is kept by the steps after it holds from then on. */
  lemma {:induction false} Always(good: nat -> bool, from: nat, n: nat)
    requires good(from) && from <= n && forall k: nat | from <= k < n :: Kept(good, k)
    ensures good(n)
    decreases n - from
  {
    if from < n {
      assert Kept(good, from);
      Always(good, from + 1, n);
    }
  }

  /** From time `n`, with `rank` still to go and help due at time `k`, one step ends
      the wait, lowers the rank, or comes nearer to the help. */
  ghost predicate Moves(pending: (nat, nat, nat) -> bool, done: nat -> bool, n: nat, rank: nat, k: nat) {
    done(n + 1) || exists l: nat, j: nat :: Nearer(pending, n, rank, k, l, j)
  }

  ghost predicate Nearer(pending: (nat, nat, nat) -> bool, n: nat, rank: nat, k: nat, l: nat, j: nat) {
    pending(n + 1, l, j) && (l < rank || (l == rank && j == k && k > n))
  }

  /** What moves at every step is done in the end. */
  lemma {:induction false} Descend(pending: (nat, nat, nat) -> bool, done: nat -> bool, n: nat, rank: nat, k: nat)
    returns (m: nat)
    requires pending(n, rank, k)
    requires forall i: nat, l: nat, j: nat | pending(i, l, j) :: Moves(pending, done, i, l, j)
    ensures m > n && done(m)
    decreases rank, if k > n then k - n else 0
  {
    assert Moves(pending, done, n, rank, k);
    if done(n + 1) {
      m := n + 1;
    } else {
      var l: nat, j: nat :| Nearer(pending, n, rank, k, l, j);
      m := Descend(pending, done, n + 1, l, j);
    }
  }

  // ---------------------------------------------------------------------------
  // One process alone

  function Iterate<S>(step: S -> S, s: S, n: nat): S {
    if n == 0 then s else step(Iterate(step, s, n - 1))
  }

  lemma {:induction false} FirstStep<S>(step: S -> S, s: S, n: nat)
    ensures Iterate(step, s, n + 1) == Iterate(step, step(s), n)
  {
    if n > 0 { FirstStep(step, s, n - 1); }
  }

  /** It is over at `s`, or over after one step, or one step brings it closer. */
  ghost predicate Approaches<S>(step: S -> S, good: S -> bool, over: S -> bool, phase: S -> nat, left: S -> nat, s: S) {
    good(s) ==>
      || over(s) || over(step(s))
      || (good(step(s)) && (phase(step(s)) < phase(s) || (phase(step(s)) == phase(s) && left(step(s)) < left(s))))
  }

  /** What every step brings closer is over in the end. */
  lemma {:induction false} RunsOut<S(!new)>(step: S -> S, good: S -> bool, over: S -> bool, phase: S -> nat,
                                            left: S -> nat, s: S) returns (n: nat)
    requires good(s) && forall t :: Approaches(step, good, over, phase, left, t)
    ensures over(Iterate(step, s, n))
    decreases phase(s), left(s)
  {
    assert Approaches(step, good, over, phase, left, s);
    if over(s) {
      n := 0;
    } else if over(step(s)) {
      FirstStep(step, s, 0);
      n := 1;
    } else {
      n := RunsOut(step, good, over, phase, left, step(s));
      FirstStep(step, s, n);
      n := n + 1;
    }
  }
}
