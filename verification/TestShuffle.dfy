/** Random numbers and the shuffling of a range, as the test framework does them. */
module TestShuffle {

  const UINT32: nat := 0x1_0000_0000
  const MAX_RANGE: nat := 0x8000_0000

  /** The generator's next state, were its integers unbounded. */
  function Next(state: nat): nat {
    (1103515245 * state + 12345) % MAX_RANGE
  }

  class Random {
    var state: nat

    constructor (seed: nat)
      requires seed < UINT32
      ensures state == seed
    {
      state := seed;
    }

    method Reseed(seed: nat)
      requires seed < UINT32
      modifies this
      ensures state == seed
    {
      state := seed;
    }

    /** Draws a number below `range`. That the products wrap around at 32 bits makes no difference. */
    method Generate(range: nat) returns (r: nat)
      requires 0 < range <= MAX_RANGE
      modifies this
      ensures state == Next(old(state)) && r == Next(old(state)) % range && r < range
    {
      WrapsAlike(state);
      state := ((1103515245 * state) % UINT32 + 12345) % UINT32 % MAX_RANGE;
      r := state % range;
    }
  }

  lemma {:induction false} WrapsAlike(state: nat)
    ensures ((1103515245 * state) % UINT32 + 12345) % UINT32 % MAX_RANGE == Next(state)
  {
    var p := 1103515245 * state;
    WrapTwice(p);
  }

  lemma {:induction false} WrapTwice(p: nat)
    ensures ((p % UINT32) + 12345) % UINT32 % MAX_RANGE == (p + 12345) % MAX_RANGE
  {
    var k, r := p / UINT32, p % UINT32;
    var k', r' := (r + 12345) / UINT32, (r + 12345) % UINT32;
    assert p + 12345 == r' + (2 * (k + k')) * MAX_RANGE;
    Modulo(r', 2 * (k + k'));
  }

  lemma {:induction false} Modulo(r: nat, k: nat)
    ensures (r + k * MAX_RANGE) % MAX_RANGE == r % MAX_RANGE
    decreases k
  {
    if k > 0 {
      Modulo(r, k - 1);
      assert r + k * MAX_RANGE == r + (k - 1) * MAX_RANGE + MAX_RANGE;
    }
  }

  // ------------------------------------------------------------- Fisher-Yates

  function Swapped<E>(v: seq<E>, i: nat, j: nat): (r: seq<E>)
    requires i < |v| && j < |v|
    ensures |r| == |v|
  {
    v[i := v[j]][j := v[i]]
  }

  /** One choice for every width from `width` down to 2, each below its width. */
  predicate Choices(cs: seq<nat>, width: nat)
    decreases width
  {
    if width < 2 then cs == [] else cs != [] && cs[0] < width && Choices(cs[1..], width - 1)
  }

  /** The first `width` elements rearranged by the choices. */
  function Arranged<E>(v: seq<E>, width: nat, cs: seq<nat>): (r: seq<E>)
    requires width <= |v| && Choices(cs, width)
    ensures |r| == |v|
    decreases width
  {
    if width < 2 then v else Arranged(Swapped(v, cs[0], width - 1), width - 1, cs[1..])
  }

  lemma {:induction false} SwapKeeps<E>(v: seq<E>, i: nat, j: nat)
    requires i < |v| && j < |v|
    ensures multiset(Swapped(v, i, j)) == multiset(v) && Swapped(v, i, j)[j] == v[i]
  {
  }

  /** Arranging permutes the first `width` elements and leaves the others alone. */
  lemma {:induction false} ArrangedPermutes<E>(v: seq<E>, width: nat, cs: seq<nat>)
    requires width <= |v| && Choices(cs, width)
    ensures var r := Arranged(v, width, cs); r[width..] == v[width..] && multiset(r[..width]) == multiset(v[..width])
    decreases width
  {
    if width >= 2 {
      var v' := Swapped(v, cs[0], width - 1);
      var r := Arranged(v, width, cs);
      ArrangedPermutes(v', width - 1, cs[1..]);
      assert v'[..width] == Swapped(v[..width], cs[0], width - 1);
      SwapKeeps(v[..width], cs[0], width - 1);
      assert r[width - 1] == r[width - 1..][0] == v'[width - 1..][0];
      assert r[width..] == r[width - 1..][1..] == v'[width - 1..][1..] == v[width..];
      assert r[..width] == r[..width - 1] + [v'[width - 1]];
      assert v'[..width] == v'[..width - 1] + [v'[width - 1]];
    }
  }

  /** Every rearrangement of the first `width` elements comes of some choices. */
  lemma {:induction false} EveryOrderArises<E>(v: seq<E>, p: seq<E>, width: nat) returns (cs: seq<nat>)
    requires width <= |v| == |p| && p[width..] == v[width..] && multiset(p[..width]) == multiset(v[..width])
    ensures Choices(cs, width) && Arranged(v, width, cs) == p
    decreases width
  {
    if width < 2 {
      cs := [];
      LoneOrder(v, p, width);
    } else {
      var i := PlaceOfLast(v, p, width);
      var v' := Swapped(v, i, width - 1);
      LastInPlace(v, p, width, i);
      var rest := EveryOrderArises(v', p, width - 1);
      cs := [i] + rest;
      assert cs[1..] == rest;
    }
  }

  lemma {:induction false} PlaceOfLast<E>(v: seq<E>, p: seq<E>, width: nat) returns (i: nat)
    requires 0 < width <= |v| == |p| && multiset(p[..width]) == multiset(v[..width])
    ensures i < width && v[i] == p[width - 1]
  {
    assert p[..width][width - 1] in multiset(p[..width]);
    i :| 0 <= i < width && v[..width][i] == p[width - 1];
  }

  /** With the last element of `p` in place, the rest is still to be arranged. */
  lemma {:induction false} LastInPlace<E>(v: seq<E>, p: seq<E>, width: nat, i: nat)
    requires 2 <= width <= |v| == |p| && p[width..] == v[width..] && multiset(p[..width]) == multiset(v[..width])
    requires i < width && v[i] == p[width - 1]
    ensures var v' := Swapped(v, i, width - 1);
            p[width - 1..] == v'[width - 1..] && multiset(p[..width - 1]) == multiset(v'[..width - 1])
  {
    WholeInPlace(v[..width], p[..width], i);
    SwapWithin(v, width, i);
    SplitBefore(p, width);
  }

  lemma {:induction false} WholeInPlace<E>(s: seq<E>, t: seq<E>, i: nat)
    requires s != [] && i < |s| == |t| && multiset(s) == multiset(t) && s[i] == t[|t| - 1]
    ensures multiset(Swapped(s, i, |s| - 1)[..|s| - 1]) == multiset(t[..|t| - 1])
  {
    hide Swapped;
    SwapKeeps(s, i, |s| - 1);
    var s' := Swapped(s, i, |s| - 1);
    var before, after, last := multiset(s'[..|s| - 1]), multiset(t[..|t| - 1]), t[|t| - 1];
    WithoutLast(s');
    WithoutLast(t);
    CancelOne(before, after, last);
  }

  lemma {:induction false} CancelOne<E>(a: multiset<E>, b: multiset<E>, x: E)
    requires a + multiset{x} == b + multiset{x}
    ensures a == b
  {
    forall y
      ensures a[y] == b[y]
    {
      assert (a + multiset{x})[y] == (b + multiset{x})[y];
    }
  }

  lemma {:induction false} SwapWithin<E>(v: seq<E>, width: nat, i: nat)
    requires i < width <= |v|
    ensures var v' := Swapped(v, i, width - 1);
            && v'[..width - 1] == Swapped(v[..width], i, width - 1)[..width - 1]
            && v'[width - 1..] == [v[i]] + v[width..]
  {
  }

  lemma {:induction false} SplitBefore<E>(p: seq<E>, width: nat)
    requires 0 < width <= |p|
    ensures p[..width][..width - 1] == p[..width - 1] && p[width - 1..] == [p[width - 1]] + p[width..]
  {
  }

  lemma {:induction false} WithoutLast<E>(s: seq<E>)
    requires s != []
    ensures multiset(s) == multiset(s[..|s| - 1]) + multiset{s[|s| - 1]}
  {
    assert s == s[..|s| - 1] + [s[|s| - 1]];
  }

  lemma {:induction false} LoneOrder<E>(v: seq<E>, p: seq<E>, width: nat)
    requires width < 2 && width <= |v| == |p| && p[width..] == v[width..] &&
             multiset(p[..width]) == multiset(v[..width])
    ensures v == p
  {
    if width == 1 {
      assert p[..1] == [p[0]] && v[..1] == [v[0]];
      assert p[0] in multiset(v[..1]);
    }
    assert v == v[..width] + v[width..] && p == p[..width] + p[width..];
  }

  /** Different choices give different orders, so that every order comes of exactly one list of choices. */
  lemma {:induction false} OrdersDiffer<E>(v: seq<E>, width: nat, cs: seq<nat>, cs': seq<nat>)
    requires width <= |v| && Choices(cs, width) && Choices(cs', width)
    requires forall i, j :: 0 <= i < j < width ==> v[i] != v[j]
    requires Arranged(v, width, cs) == Arranged(v, width, cs')
    ensures cs == cs'
    decreases width
  {
    if width >= 2 {
      var w, w' := Swapped(v, cs[0], width - 1), Swapped(v, cs'[0], width - 1);
      ArrangedPermutes(w, width - 1, cs[1..]);
      ArrangedPermutes(w', width - 1, cs'[1..]);
      assert w[width - 1] == w[width - 1..][0] == w'[width - 1..][0] == w'[width - 1];
      assert cs[0] == cs'[0];
      OrdersDiffer(w, width - 1, cs[1..], cs'[1..]);
      assert cs == [cs[0]] + cs[1..] && cs' == [cs'[0]] + cs'[1..];
    }
  }

  /** The choices that pick the last place every time. */
  function LastPlaces(width: nat): (cs: seq<nat>)
    ensures Choices(cs, width)
    decreases width
  {
    if width < 2 then [] else [width - 1] + LastPlaces(width - 1)
  }

  lemma {:induction false} LastPlacesKeep<E>(v: seq<E>, width: nat)
    requires width <= |v|
    ensures Arranged(v, width, LastPlaces(width)) == v
    decreases width
  {
    if width >= 2 {
      assert Swapped(v, width - 1, width - 1) == v;
      assert LastPlaces(width)[1..] == LastPlaces(width - 1);
      LastPlacesKeep(v, width - 1);
    }
  }

  /** Only those leave an order of distinct elements as it was. */
  lemma {:induction false} KeptIffLast<E>(v: seq<E>, width: nat, cs: seq<nat>)
    requires width <= |v| && Choices(cs, width)
    requires forall i, j :: 0 <= i < j < width ==> v[i] != v[j]
    ensures Arranged(v, width, cs) == v <==> cs == LastPlaces(width)
  {
    LastPlacesKeep(v, width);
    if Arranged(v, width, cs) == v {
      OrdersDiffer(v, width, cs, LastPlaces(width));
    }
  }

  // ------------------------------------------------------------ drawing the choices

  /** What the generator draws for a range of the given width. */
  function Draws(state: nat, width: nat): (cs: seq<nat>)
    ensures Choices(cs, width)
    decreases width
  {
    if width < 2 then [] else [Next(state) % width] + Draws(Next(state), width - 1)
  }

  /** The generator's state afterwards. */
  function Drawn(state: nat, width: nat): nat
    decreases width
  {
    if width < 2 then state else Drawn(Next(state), width - 1)
  }

  // ------------------------------------------------------- what can be drawn

  /** The generator's state after `n` numbers. */
  function After(state: nat, n: nat): nat
    decreases n
  {
    if n == 0 then state else After(Next(state), n - 1)
  }

  /** Draw `i` is the generator's number `i` brought into the range of places that are left. */
  lemma {:induction false} DrawAt(state: nat, width: nat, i: nat)
    requires i + 1 < width
    ensures |Draws(state, width)| == width - 1 && Draws(state, width)[i] == After(state, i + 1) % (width - i)
    ensures Drawn(state, width) == After(state, width - 1)
    decreases width
  {
    DrawsAll(state, width);
    if i > 0 {
      DrawAt(Next(state), width - 1, i - 1);
    } else {
      assert After(Next(state), 0) == Next(state);
    }
  }

  lemma {:induction false} DrawsAll(state: nat, width: nat)
    ensures |Draws(state, width)| == (if width < 2 then 0 else width - 1)
    ensures Drawn(state, width) == After(state, if width < 2 then 0 else width - 1)
    decreases width
  {
    if width >= 2 {
      DrawsAll(Next(state), width - 1);
    }
  }

  /** The state the generator was in before `state`: 1857678181 undoes the multiplication. */
  function Previous(state: nat): nat {
    1857678181 * (state + MAX_RANGE - 12345) % MAX_RANGE
  }

  /** The generator's step permutes the states below 2^31, so no number is out of its reach. */
  lemma {:induction false} StepPermutes(state: nat)
    requires state < MAX_RANGE
    ensures Previous(state) < MAX_RANGE && Next(Previous(state)) == state && Previous(Next(state)) == state
  {
    var b := 1857678181 * (state + MAX_RANGE - 12345);
    var c := 1103515245 * state + 12345;
    NextOf(b, state);
    PreviousOf(c, state);
  }

  lemma {:induction false} NextOf(b: nat, state: nat)
    requires state < MAX_RANGE && b == 1857678181 * (state + MAX_RANGE - 12345)
    ensures Next(b % MAX_RANGE) == state
  {
    var q, r := b / MAX_RANGE, b % MAX_RANGE;
    assert b == q * MAX_RANGE + r;
    var k := 954594553 * (state + MAX_RANGE - 12345) + 1 - 1103515245 * q;
    assert 1103515245 * r + 12345 == state + k * MAX_RANGE;
    Remainder(1103515245 * r + 12345, k, state);
  }

  lemma {:induction false} PreviousOf(c: nat, state: nat)
    requires state < MAX_RANGE && c == 1103515245 * state + 12345
    ensures Previous(c % MAX_RANGE) == state
  {
    var q, r := c / MAX_RANGE, c % MAX_RANGE;
    assert c == q * MAX_RANGE + r;
    var k := 954594553 * state - 1857678181 * q + 1857678181;
    assert 1857678181 * (r + MAX_RANGE - 12345) == state + k * MAX_RANGE;
    Remainder(1857678181 * (r + MAX_RANGE - 12345), k, state);
  }

  lemma {:induction false} Remainder(a: int, k: int, r: nat)
    requires r < MAX_RANGE && a == r + k * MAX_RANGE
    ensures a % MAX_RANGE == r
  {
  }

  /** The state that leads to `state` in `n` numbers. */
  function Before(state: nat, n: nat): nat {
    if n == 0 then state else Previous(Before(state, n - 1))
  }

  lemma {:induction false} BeforeLeads(state: nat, n: nat)
    requires state < MAX_RANGE
    ensures Before(state, n) < MAX_RANGE && After(Before(state, n), n) == state
  {
    hide Next, Previous;
    if n > 0 {
      BeforeLeads(state, n - 1);
      StepPermutes(Before(state, n - 1));
    }
  }

  /** Whatever the width and the draw, every place that is left is drawn from some state of the generator. */
  lemma {:induction false} EveryPlaceDrawn(width: nat, i: nat, place: nat) returns (state: nat)
    requires width <= MAX_RANGE && i + 1 < width && place < width - i
    ensures state < MAX_RANGE && |Draws(state, width)| == width - 1 && Draws(state, width)[i] == place
  {
    state := Before(place, i + 1);
    BeforeLeads(place, i + 1);
    DrawAt(state, width, i);
    Small(place, width - i);
  }

  lemma {:induction false} Small(place: nat, width: nat)
    requires place < width
    ensures place % width == place
  {
  }

  /** A range of `v` shuffled. */
  function RangeShuffled<E>(v: seq<E>, begin: nat, end: nat, state: nat): (r: seq<E>)
    requires begin <= end <= |v|
    ensures |r| == |v|
  {
    v[..begin] + Arranged(v[begin..end], end - begin, Draws(state, end - begin)) + v[end..]
  }

  /** Shuffling a range permutes the range and leaves the rest alone. */
  lemma {:induction false} RangePermutes<E>(v: seq<E>, begin: nat, end: nat, state: nat)
    requires begin <= end <= |v|
    ensures var r := RangeShuffled(v, begin, end, state);
            && r[..begin] == v[..begin] && r[end..] == v[end..]
            && multiset(r[begin..end]) == multiset(v[begin..end]) && multiset(r) == multiset(v)
  {
    var range, cs := v[begin..end], Draws(state, end - begin);
    var r, mid := RangeShuffled(v, begin, end, state), Arranged(range, end - begin, cs);
    ArrangedPermutes(range, end - begin, cs);
    assert range[..end - begin] == range && mid[..end - begin] == mid && r[begin..end] == mid;
    ThreeParts(v, begin, end);
    ThreeParts(r, begin, end);
  }

  lemma {:induction false} RangeKeptIffLast<E>(v: seq<E>, begin: nat, end: nat, state: nat)
    requires begin <= end <= |v| && forall i, j :: 0 <= i < j < |v| ==> v[i] != v[j]
    ensures RangeShuffled(v, begin, end, state) == v <==> Draws(state, end - begin) == LastPlaces(end - begin)
  {
    var range, cs := v[begin..end], Draws(state, end - begin);
    KeptIffLast(range, end - begin, cs);
    hide Arranged, Draws, LastPlaces;
    assert v == v[..begin] + range + v[end..];
    assert RangeShuffled(v, begin, end, state)[begin..end] == Arranged(range, end - begin, cs);
  }

  /** Two different neighbours stay as they are if and only if the generator's next number is odd, and are exchanged
    * otherwise.
    */
  lemma {:induction false} PairKeptIffOdd<E>(v: seq<E>, begin: nat, state: nat)
    requires begin + 2 <= |v| && v[begin] != v[begin + 1]
    ensures var r := RangeShuffled(v, begin, begin + 2, state);
            && (r == v <==> Next(state) % 2 == 1)
            && (Next(state) % 2 == 0 ==> r == v[begin := v[begin + 1]][begin + 1 := v[begin]])
  {
    var range, draw := v[begin..begin + 2], Next(state) % 2;
    var r := RangeShuffled(v, begin, begin + 2, state);
    DrawAt(state, 2, 0);
    assert After(Next(state), 0) == Next(state);
    assert Draws(state, 2) == [draw];
    assert Arranged(range, 2, [draw]) == Swapped(range, draw, 1);
    hide Next, Arranged, Draws, Swapped;
    assert Swapped(range, draw, 1) == if draw == 1 then range else [range[1], range[0]] by { PairSwapped(range, draw); }
    assert v == v[..begin] + range + v[begin + 2..];
    assert r[begin] == Swapped(range, draw, 1)[0];
  }

  lemma {:induction false} PairSwapped<E>(range: seq<E>, draw: nat)
    requires |range| == 2 && draw < 2
    ensures Swapped(range, draw, 1) == if draw == 1 then range else [range[1], range[0]]
  {
  }

  // ------------------------------------------------------- what cannot be drawn

  predicate Odd(n: int) {
    n % 2 == 1
  }

  lemma {:induction false} SameParity(a: int, b: int, k: int)
    requires a == b + 2 * k
    ensures Odd(a) == Odd(b)
  {
  }

  /** Odd and even states take turns. */
  lemma {:induction false} ParityAlternates(state: nat)
    ensures Odd(Next(state)) == Odd(state + 1)
  {
    hide Odd, Next;
    var n := 1103515245 * state + 12345;
    var q := StepQuotient(state);
    SameParity(n, Next(state), q * 0x4000_0000);
    SameParity(n, state + 1, 551757622 * state + 6172);
  }

  lemma {:induction false} StepQuotient(state: nat) returns (q: nat)
    ensures 1103515245 * state + 12345 == Next(state) + q * MAX_RANGE
  {
    q := (1103515245 * state + 12345) / MAX_RANGE;
  }

  lemma {:induction false} ParityAfter(state: nat, n: nat)
    ensures Odd(After(state, n)) == Odd(state + n)
    decreases n
  {
    hide Next, Odd;
    if n > 0 {
      ParityAlternates(state);
      ParityAfter(Next(state), n - 1);
      OddSum(Next(state), state + 1, n - 1);
    }
  }

  lemma {:induction false} OddSum(a: int, b: int, k: int)
    requires Odd(a) == Odd(b)
    ensures Odd(a + k) == Odd(b + k)
  {
  }

  /** A draw from an even number of places is odd or even as the state is. */
  lemma {:induction false} EvenDraw(state: nat, width: nat, i: nat)
    requires i + 1 < width && !Odd(width - i)
    ensures |Draws(state, width)| == width - 1 && Odd(Draws(state, width)[i]) == Odd(state + i + 1)
  {
    hide Next, Draws, After, Odd;
    DrawAt(state, width, i);
    ParityAfter(state, i + 1);
    EvenModulus(After(state, i + 1), width - i);
  }

  lemma {:induction false} EvenModulus(a: nat, m: nat)
    requires m > 0 && !Odd(m)
    ensures Odd(a % m) == Odd(a)
  {
    var k, q, r := m / 2, a / m, a % m;
    assert m == 2 * k && a == m * q + r;
    hide Odd;
    assert m * q == 2 * (k * q);
    SameParity(a, r, k * q);
  }

  /** So the draws from an even number of places are all odd or all even. */
  lemma {:induction false} EvenDrawsAgree(state: nat, width: nat, i: nat, j: nat)
    requires i + 1 < width && j + 1 < width && !Odd(width - i) && !Odd(width - j)
    ensures |Draws(state, width)| == width - 1
    ensures Odd(Draws(state, width)[i]) == Odd(Draws(state, width)[j])
  {
    OddParts(state, width, i, j);
    hide Draws, Odd;
    EvenDraw(state, width, i);
    EvenDraw(state, width, j);
  }

  lemma {:induction false} OddParts(state: nat, width: nat, i: nat, j: nat)
    requires !Odd(width - i) && !Odd(width - j)
    ensures Odd(state + i + 1) == Odd(state + j + 1)
  {
  }

  ghost predicate Drawable(cs: seq<nat>, width: nat) {
    exists state: nat :: state < MAX_RANGE && Draws(state, width) == cs
  }

  /** The first two draws from four places can be anything; that they agree in parity with the third is all that is
    * needed for the three to be drawn.
    */
  lemma {:induction false} FourDrawn(cs: seq<nat>)
    requires Choices(cs, 4)
    ensures |cs| == 3 && (Drawable(cs, 4) <==> Odd(cs[0]) == Odd(cs[2]))
  {
    ChoicesOfFour(cs);
    assert !Odd(4 - 0) && !Odd(4 - 2);
    hide Choices, Draws, Odd;
    if Drawable(cs, 4) {
      var state: nat :| state < MAX_RANGE && Draws(state, 4) == cs;
      EvenDrawsAgree(state, 4, 0, 2);
    }
    if Odd(cs[0]) == Odd(cs[2]) {
      var state := FourFound(cs[0], cs[1], cs[2]);
      assert cs == [cs[0], cs[1], cs[2]];
    }
  }

  lemma {:induction false} ChoicesOfFour(cs: seq<nat>)
    requires Choices(cs, 4)
    ensures |cs| == 3 && cs[0] < 4 && cs[1] < 3 && cs[2] < 2
  {
    assert Choices(cs[1..], 3) && Choices(cs[1..][1..], 2) && Choices(cs[1..][1..][1..], 1);
  }

  lemma {:induction false} FourFound(a: nat, b: nat, c: nat) returns (state: nat)
    requires a < 4 && b < 3 && c < 2 && Odd(a) == Odd(c)
    ensures state < MAX_RANGE && Draws(state, 4) == [a, b, c]
  {
    hide Next, Previous, Draws, Odd;
    var s := FirstState(a, b);
    StepPermutes(s);
    state := Previous(s);
    DrawsOfFour(state);
    ParityAlternates(s);
    ParityAlternates(Next(s));
    ThirdDraw(s, Next(s), Next(Next(s)), a, c);
  }

  lemma {:induction false} ThirdDraw(s: nat, s': nat, s'': nat, a: nat, c: nat)
    requires a < 4 && c < 2 && s % 4 == a && Odd(a) == Odd(c)
    requires Odd(s') == Odd(s + 1) && Odd(s'') == Odd(s' + 1)
    ensures s'' % 2 == c
  {
    hide Odd;
    var q := Quarter(s, a);
    SameParity(s, a, 2 * q);
    OddSum(s', s + 1, 1);
    SameParity(s + 1 + 1, s, 1);
    LastBit(s'', c);
  }

  lemma {:induction false} Quarter(s: nat, a: nat) returns (q: nat)
    requires s % 4 == a
    ensures s == a + 4 * q
  {
    q := s / 4;
  }

  lemma {:induction false} LastBit(s: nat, c: nat)
    requires c < 2 && Odd(s) == Odd(c)
    ensures s % 2 == c
  {
  }

  /** Each draw from four places in turn. */
  lemma {:induction false} DrawsOfFour(state: nat)
    ensures var s := Next(state); Draws(state, 4) == [s % 4, Next(s) % 3, Next(Next(s)) % 2]
  {
    hide Next;
    var s := Next(state);
    assert Draws(Next(Next(s)), 1) == [];
    assert Draws(Next(s), 2) == [Next(Next(s)) % 2] + [];
    assert Draws(s, 3) == [Next(s) % 3] + Draws(Next(s), 2);
  }

  lemma {:induction false} FirstState(c: nat, c': nat) returns (s: nat)
    requires c < 4 && c' < 3
    ensures s < MAX_RANGE && s % 4 == c && Next(s) % 3 == c'
  {
    var states := [0, 8, 4, 1, 9, 5, 6, 2, 10, 7, 3, 11];
    s := states[3 * c + c'];
  }

  /** Of the orders of four elements only half ever arise: those whose choices from four and from two places are both
    * odd or both even.
    */
  lemma {:induction false} HalfTheOrders<E>(v: seq<E>, p: seq<E>) returns (cs: seq<nat>)
    requires |v| == |p| == 4 && multiset(p) == multiset(v) && forall i, j :: 0 <= i < j < 4 ==> v[i] != v[j]
    ensures Choices(cs, 4) && Arranged(v, 4, cs) == p && |cs| == 3
    ensures (exists state: nat :: state < MAX_RANGE && RangeShuffled(v, 0, 4, state) == p) <==>
            Odd(cs[0]) == Odd(cs[2])
  {
    assert p[4..] == v[4..] && p[..4] == p && v[..4] == v;
    cs := EveryOrderArises(v, p, 4);
    FourDrawn(cs);
    hide Arranged, Draws, Choices, RangeShuffled;
    forall state: nat
      ensures RangeShuffled(v, 0, 4, state) == p <==> Draws(state, 4) == cs
    {
      WholeShuffled(v, state);
      if RangeShuffled(v, 0, 4, state) == p {
        OrdersDiffer(v, 4, Draws(state, 4), cs);
      }
    }
  }

  lemma {:induction false} WholeShuffled<E>(v: seq<E>, state: nat)
    ensures RangeShuffled(v, 0, |v|, state) == Arranged(v, |v|, Draws(state, |v|))
  {
    hide Arranged, Draws;
    assert v[0..|v|] == v && v[..0] == [] && v[|v|..] == [];
    var r := Arranged(v, |v|, Draws(state, |v|));
    assert [] + r + [] == r;
  }

  lemma {:induction false} ThreeParts<E>(v: seq<E>, begin: nat, end: nat)
    requires begin <= end <= |v|
    ensures multiset(v) == multiset(v[..begin]) + multiset(v[begin..end]) + multiset(v[end..])
  {
    assert v == v[..begin] + v[begin..end] + v[end..];
  }

  /** Shuffles `v[begin..end]`. */
  method ShuffleRange<E>(random: Random, begin: nat, end: nat, v: seq<E>) returns (r: seq<E>)
    requires begin <= end <= |v| <= MAX_RANGE
    modifies random
    ensures r == RangeShuffled(v, begin, end, old(random.state)) &&
            random.state == Drawn(old(random.state), end - begin)
  {
    hide Next;
    r := v;
    var width := end - begin;
    ghost var all := Arranged(v[begin..end], width, Draws(random.state, width));
    while width >= 2
      invariant 0 <= width <= end - begin && |r| == |v| && r[..begin] == v[..begin] && r[end..] == v[end..]
      invariant Arranged(r[begin..end], width, Draws(random.state, width)) == all
      invariant Drawn(random.state, width) == Drawn(old(random.state), end - begin)
    {
      ghost var range, cs := r[begin..end], Draws(random.state, width);
      var last := begin + width - 1;
      var selected := random.Generate(width);
      assert cs[0] == selected && cs[1..] == Draws(random.state, width - 1);
      selected := begin + selected;
      r := r[selected := r[last]][last := r[selected]];
      assert r[begin..end] == Swapped(range, selected - begin, width - 1);
      width := width - 1;
    }
    assert r == r[..begin] + r[begin..end] + r[end..];
  }
}
