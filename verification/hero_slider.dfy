/** The hero background slider: a list of slides, each with an `active` mark, and
    a cursor that a timer advances cyclically. */
module HeroSlider {
  import opened Options

  datatype Slider = Slider(active: seq<bool>, index: nat)

  /** The cursor points at a slide. */
  predicate Valid(s: Slider) {
    s.index < |s.active|
  }

  /** Set-up: with no slides nothing starts; otherwise the first slide is marked
      active (marks already present in the markup stay) and the timer starts. */
  function Start(marks: seq<bool>): (r: Option<Slider>)
    ensures r.None? <==> |marks| == 0
    ensures r.Some? ==> Valid(r.value) && r.value.index == 0 && |r.value.active| == |marks|
    ensures r.Some? ==> r.value.active[0] && forall i :: 0 < i < |marks| ==> r.value.active[i] == marks[i]
  {
    if |marks| == 0 then None else Some(Slider(marks[0 := true], 0))
  }

  /** One timer tick: unmark the current slide, advance the cursor modulo the
      number of slides, mark the new current slide. */
  function Tick(s: Slider): (r: Slider)
    requires Valid(s)
    ensures Valid(r) && |r.active| == |s.active|
    ensures r.index == (s.index + 1) % |s.active|
    ensures r.active[r.index]
    ensures forall i :: 0 <= i < |s.active| && i != r.index ==>
      (r.active[i] <==> s.active[i] && i != s.index)
  {
    var next := (s.index + 1) % |s.active|;
    Slider(s.active[s.index := false][next := true], next)
  }

  /** `k` timer ticks. */
  function Ticks(s: Slider, k: nat): (r: Slider)
    requires Valid(s)
    ensures Valid(r) && |r.active| == |s.active|
    decreases k
  {
    if k == 0 then s else Ticks(Tick(s), k - 1)
  }

  /** Which slides are marked after `k` ticks from the start: the one at
      `k mod N`, and any slide beyond `k` that the markup marked and the cursor
      has not reached yet. */
  ghost predicate MarkedAfter(marks: seq<bool>, k: nat, s: Slider) {
    && |marks| > 0
    && |s.active| == |marks|
    && s.index == k % |marks|
    && forall i :: 0 <= i < |marks| ==> (s.active[i] <==> i == k % |marks| || (k < i && marks[i]))
  }

  /** After `k` ticks from `Start`, the cursor and the marks are as `MarkedAfter`
      describes. */
  lemma {:induction false} TicksFromStart(marks: seq<bool>, k: nat)
    requires |marks| > 0
    ensures MarkedAfter(marks, k, Ticks(Start(marks).value, k))
  {
    var s0 := Start(marks).value;
    if k > 0 {
      TicksFromStart(marks, k - 1);
      TicksLast(s0, k - 1);
      TickStep(marks, k - 1, Ticks(s0, k - 1));
    }
  }

  /** One tick moves `MarkedAfter` from `k` to `k + 1`. */
  lemma TickStep(marks: seq<bool>, k: nat, s: Slider)
    requires MarkedAfter(marks, k, s)
    ensures Valid(s) && MarkedAfter(marks, k + 1, Tick(s))
  {
    var n := |marks|;
    ModSucc(k, n);
    var r := Tick(s);
    forall i | 0 <= i < n
      ensures r.active[i] <==> i == (k + 1) % n || (k + 1 < i && marks[i])
    {
      if i == k + 1 {
        ModUnique(i, n, 0, i);
      }
    }
  }

  /** A product of non-negative numbers is non-negative. */
  lemma MulNonneg(a: int, b: int)
    requires a >= 0 && b >= 0
    ensures a * b >= 0
  {}

  /** Euclidean division has a unique remainder. */
  lemma ModUnique(a: int, n: int, q: int, r: int)
    requires n > 0 && 0 <= r < n && a == q * n + r
    ensures a % n == r
  {
    var q', r' := a / n, a % n;
    assert a == q' * n + r';
    var d := q - q';
    assert d * n == r' - r;
    MulNonneg(if d >= 1 then d - 1 else 0, n);
    MulNonneg(if d <= -1 then -d - 1 else 0, n);
    assert d == 0;
  }

  /** Advancing a residue modulo `n` by one. */
  lemma ModSucc(k: nat, n: nat)
    requires n > 0
    ensures (k % n + 1) % n == (k + 1) % n
    ensures k % n <= k
  {
    var r, q := k % n, k / n;
    assert k == q * n + r;
    MulNonneg(q, n);
    if r + 1 < n {
      ModUnique(k + 1, n, q, r + 1);
      ModUnique(r + 1, n, 0, r + 1);
    } else {
      assert k + 1 == (q + 1) * n + 0;
      ModUnique(k + 1, n, q + 1, 0);
      ModUnique(r + 1, n, 1, 0);
    }
  }

  /** `k + 1` ticks are `k` ticks followed by one. */
  lemma {:induction false} TicksLast(s: Slider, k: nat)
    requires Valid(s)
    ensures Ticks(s, k + 1) == Tick(Ticks(s, k))
    decreases k
  {
    if k > 0 {
      TicksLast(Tick(s), k - 1);
    }
  }

  /** With `N > 0` slides, after `k` ticks the cursor is `k mod N`; when the markup
      marked no slide, exactly the slide at the cursor is active. */
  lemma CursorAfterTicks(marks: seq<bool>, k: nat)
    requires |marks| > 0
    requires forall i :: 0 <= i < |marks| ==> !marks[i]
    ensures Ticks(Start(marks).value, k).index == k % |marks|
    ensures forall i :: 0 <= i < |marks| ==> (Ticks(Start(marks).value, k).active[i] <==> i == k % |marks|)
  {
    TicksFromStart(marks, k);
  }

  /** Whatever the markup marked, once the cursor has visited every slide
      (`k >= N - 1`) exactly one slide is active. */
  lemma SettlesToOneActive(marks: seq<bool>, k: nat)
    requires |marks| > 0 && k >= |marks| - 1
    ensures forall i :: 0 <= i < |marks| ==> (Ticks(Start(marks).value, k).active[i] <==> i == k % |marks|)
  {
    TicksFromStart(marks, k);
  }
}
