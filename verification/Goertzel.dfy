/** The Goertzel algorithm over exact reals: one bin of a Fourier transform, at once or piecewise. */
module Goertzel {
  import opened CStrings

  // ----- Complex numbers -----

  datatype Complex = Complex(re: real, im: real) {
    function Times(z: Complex): Complex {
      Complex(re * z.re - im * z.im, re * z.im + im * z.re)
    }

    function Plus(z: Complex): Complex {
      Complex(re + z.re, im + z.im)
    }

    function Conjugate(): Complex {
      Complex(re, -im)
    }

    /** The squared magnitude. */
    function Norm(): real {
      re * re + im * im
    }
  }

  const ZERO := Complex(0.0, 0.0)
  const ONE := Complex(1.0, 0.0)

  function Scaled(x: real, z: Complex): Complex {
    Complex(x * z.re, x * z.im)
  }

  function Power(w: Complex, n: nat): Complex {
    if n == 0 then ONE else w.Times(Power(w, n - 1))
  }

  lemma Associative(x: Complex, y: Complex, z: Complex)
    ensures x.Times(y).Times(z) == x.Times(y.Times(z))
  {
  }

  lemma Commutative(x: Complex, y: Complex)
    ensures x.Times(y) == y.Times(x)
  {
  }

  lemma NormOfProduct(x: Complex, y: Complex)
    ensures x.Times(y).Norm() == x.Norm() * y.Norm()
  {
  }

  lemma {:induction false} NormOfPower(w: Complex, n: nat)
    requires w.Norm() == 1.0
    ensures Power(w, n).Norm() == 1.0
  {
    if n > 0 {
      NormOfPower(w, n - 1);
      NormOfProduct(w, Power(w, n - 1));
    }
  }

  /** Powers of a number of norm 1 and of its conjugate cancel. */
  lemma {:induction false} PowersCancel(w: Complex, n: nat)
    requires w.Norm() == 1.0
    ensures Power(w, n).Times(Power(w.Conjugate(), n)) == ONE
  {
    if n > 0 {
      var v, p, q := w.Conjugate(), Power(w, n - 1), Power(w.Conjugate(), n - 1);
      PowersCancel(w, n - 1);
      calc {
        w.Times(p).Times(v.Times(q));
        { Commutative(w, p); Associative(p, w, v.Times(q)); Associative(w, v, q); }
        p.Times(w.Times(v).Times(q));
        { assert w.Times(v) == ONE; assert ONE.Times(q) == q; }
        p.Times(q);
      }
    }
  }

  // ----- The transform -----

  /** The sum of dat[i] * e^(-j*omega*i), where w is e^(j*omega). */
  function Bin(dat: seq<real>, w: Complex): Complex {
    if dat == [] then ZERO
    else
      var n := |dat| - 1;
      Bin(dat[..n], w).Plus(Scaled(dat[n], Power(w.Conjugate(), n)))
  }

  // ----- The recursion -----

  /** The two delayed values. */
  datatype Delay = Delay(q1: real, q2: real)

  function Next(x: real, coeff: real, q1: real, q2: real): real {
    x + coeff * q1 - q2
  }

  function Feed(d: Delay, x: real, c: real): Delay {
    Delay(Next(x, 2.0 * c, d.q1, d.q2), d.q1)
  }

  function FeedAll(dat: seq<real>, c: real): Delay {
    if dat == [] then Delay(0.0, 0.0) else Feed(FeedAll(dat[..|dat|-1], c), dat[|dat|-1], c)
  }

  function Result(d: Delay, w: Complex): Complex {
    Complex(w.re * d.q1 - d.q2, w.im * d.q1)
  }

  /** A sample is added to the result, and the sum turned by omega. */
  lemma FeedTurns(d: Delay, x: real, w: Complex)
    requires w.Norm() == 1.0
    ensures Result(Feed(d, x, w.re), w) == w.Times(Result(d, w).Plus(Complex(x, 0.0)))
  {
  }

  /** The result is the bin, turned by omega once for every sample. */
  lemma {:induction false} ResultIsTurnedBin(dat: seq<real>, w: Complex)
    requires w.Norm() == 1.0
    ensures Result(FeedAll(dat, w.re), w) == Power(w, |dat|).Times(Bin(dat, w))
  {
    if dat != [] {
      var n := |dat| - 1;
      var x, p, b := dat[n], Power(w, n), Bin(dat[..n], w);
      var q := Power(w.Conjugate(), n);
      ResultIsTurnedBin(dat[..n], w);
      FeedTurns(FeedAll(dat[..n], w.re), x, w);
      PowersCancel(w, n);
      Distribute(p, b, q, x);
      Associative(w, p, b.Plus(Scaled(x, q)));
    }
  }

  lemma TimesPlus(x: Complex, y: Complex, z: Complex)
    ensures x.Times(y.Plus(z)) == x.Times(y).Plus(x.Times(z))
  {
  }

  lemma TimesScaled(x: real, y: Complex, z: Complex)
    ensures y.Times(Scaled(x, z)) == Scaled(x, y.Times(z))
  {
    assert y.re * (x * z.re) == x * (y.re * z.re) && y.im * (x * z.im) == x * (y.im * z.im);
    assert y.re * (x * z.im) == x * (y.re * z.im) && y.im * (x * z.re) == x * (y.im * z.re);
  }

  lemma Distribute(p: Complex, b: Complex, q: Complex, x: real)
    requires p.Times(q) == ONE
    ensures p.Times(b.Plus(Scaled(x, q))) == p.Times(b).Plus(Complex(x, 0.0))
  {
    TimesPlus(p, b, Scaled(x, q));
    TimesScaled(x, p, q);
  }

  lemma NormOfResult(d: Delay, w: Complex)
    requires w.Norm() == 1.0
    ensures Result(d, w).Norm() == d.q1 * d.q1 + d.q2 * d.q2 - 2.0 * w.re * d.q1 * d.q2
  {
  }

  /** The squared magnitude is that of the bin, and is a form in the delayed values alone. */
  lemma MagnitudeIsOfBin(dat: seq<real>, w: Complex)
    requires w.Norm() == 1.0
    ensures var d := FeedAll(dat, w.re);
      Result(d, w).Norm() == Bin(dat, w).Norm() == d.q1 * d.q1 + d.q2 * d.q2 - 2.0 * w.re * d.q1 * d.q2
  {
    hide *;
    NormOfResult(FeedAll(dat, w.re), w);
    ResultIsTurnedBin(dat, w);
    NormOfPower(w, |dat|);
    NormOfProduct(Power(w, |dat|), Bin(dat, w));
  }

  lemma SquareIsZero(x: real)
    ensures x * x >= 0.0 && (x * x == 0.0 <==> x == 0.0)
  {
    if x * x == 0.0 {
      ProductIsZero(x, x);
    }
  }

  lemma NormIsZero(z: Complex)
    ensures z.Norm() == 0.0 <==> z == ZERO
  {
    SquareIsZero(z.re);
    SquareIsZero(z.im);
  }

  lemma ProductIsZero(x: real, y: real)
    requires x * y == 0.0
    ensures x == 0.0 || y == 0.0
  {
  }

  lemma Neutral(z: Complex)
    ensures ONE.Times(z) == z && z.Times(ZERO) == ZERO
  {
  }

  lemma TimesLess(p: Complex, b: Complex)
    ensures p.Times(b) == b ==> Complex(p.re - 1.0, p.im).Times(b) == ZERO
  {
    assert (p.re - 1.0) * b.re == p.re * b.re - b.re && (p.re - 1.0) * b.im == p.re * b.im - b.im;
  }

  lemma TimesFixes(p: Complex, b: Complex)
    ensures p.Times(b) == b <==> p == ONE || b == ZERO
  {
    hide Complex.Times, Complex.Norm;
    Neutral(b);
    Neutral(p);
    if p.Times(b) == b {
      var m := Complex(p.re - 1.0, p.im);
      TimesLess(p, b);
      NoZeroDivisors(m, b);
    }
  }

  lemma NoZeroDivisors(x: Complex, y: Complex)
    requires x.Times(y) == ZERO
    ensures x == ZERO || y == ZERO
  {
    NormOfProduct(x, y);
    NormIsZero(x);
    NormIsZero(y);
    NormIsZero(ZERO);
    hide Complex.Times, Complex.Norm;
    ProductIsZero(x.Norm(), y.Norm());
  }

  /** The phase is that of the bin too, exactly if a whole number of periods was sampled (or the
      bin is empty). */
  lemma ResultIsBinIff(dat: seq<real>, w: Complex)
    requires w.Norm() == 1.0
    ensures Result(FeedAll(dat, w.re), w) == Bin(dat, w) <==> Power(w, |dat|) == ONE || Bin(dat, w) == ZERO
  {
    ResultIsTurnedBin(dat, w);
    TimesFixes(Power(w, |dat|), Bin(dat, w));
  }

  lemma OneSample(c: real)
    ensures FeedAll([1.0], c) == Delay(1.0, 0.0)
  {
    assert [1.0][..0] == [];
    assert FeedAll([], c) == Delay(0.0, 0.0);
  }

  lemma BinOfOne(w: Complex)
    ensures Bin([1.0], w) == ONE
  {
    assert [1.0][..0] == [];
    assert Bin([], w) == ZERO && Power(w.Conjugate(), 0) == ONE;
    hide Power, Complex.Conjugate;
  }

  const QUARTER := Complex(0.0, 1.0)

  lemma QuarterIsUnit()
    ensures QUARTER.Norm() == 1.0 && QUARTER.re == 0.0
  {
  }

  lemma ResultOfOne()
    ensures Result(Delay(1.0, 0.0), QUARTER) == QUARTER != ONE
  {
  }

  /** One sample at a quarter of the sampling frequency: the bin is 1, the result j. */
  lemma QuarterPeriodTurns()
    ensures QUARTER.Norm() == 1.0 && Bin([1.0], QUARTER) == ONE
    ensures Result(FeedAll([1.0], QUARTER.re), QUARTER) == QUARTER != ONE
  {
    hide *;
    QuarterIsUnit();
    OneSample(QUARTER.re);
    BinOfOne(QUARTER);
    ResultOfOne();
  }

  predicate OnUnitCircle(cosine: real, sine: real) {
    Complex(cosine, sine).Norm() == 1.0
  }

  lemma FeedOneMore(before: seq<real>, dat: seq<real>, i: nat, c: real)
    requires i < |dat|
    ensures var d := FeedAll(before + dat[..i], c);
      FeedAll(before + dat[..i+1], c) == Delay(Next(dat[i], 2.0 * c, d.q1, d.q2), d.q1)
  {
    assert (before + dat[..i+1])[..|before| + i] == before + dat[..i];
  }

  /** fast_goertzel_algorithm, up to the square root and the arc tangent. */
  method FastGoertzel(dat: seq<real>, cosine: real, sine: real) returns (rl: real, ig: real)
    requires OnUnitCircle(cosine, sine)
    ensures Complex(rl, ig) == Result(FeedAll(dat, cosine), Complex(cosine, sine))
    ensures Complex(rl, ig).Norm() == Bin(dat, Complex(cosine, sine)).Norm()
  {
    hide Next, Complex.Norm, Bin;
    var coeff := 2.0 * cosine;
    var q0, q1, q2 := 0.0, 0.0, 0.0;
    for i := 0 to |dat|
      invariant Delay(q1, q2) == FeedAll(dat[..i], cosine)
    {
      assert [] + dat[..i] == dat[..i] && [] + dat[..i+1] == dat[..i+1];
      FeedOneMore([], dat, i, cosine);
      q0 := Next(dat[i], coeff, q1, q2);
      q2 := q1;
      q1 := q0;
    }
    assert dat[..|dat|] == dat;
    MagnitudeIsOfBin(dat, Complex(cosine, sine));
    rl := cosine * q1 - q2;
    ig := sine * q1;
  }

  // ----- Piece by piece -----

  /** The static state of the piecewise form. */
  class Algo {
    var q0: real
    var q1: real
    var q2: real
    var cnt: int
    var length: int
    var cosine: real
    var sine: real
    ghost var fed: seq<real>

    /** The state is that of the samples fed so far. */
    ghost predicate Valid()
      reads this
    {
      OnUnitCircle(cosine, sine) && cnt == |fed| && Delay(q1, q2) == FeedAll(fed, cosine)
    }

    /** goertzel_init */
    method Init(length: int, cosine: real, sine: real)
      requires OnUnitCircle(cosine, sine)
      modifies this
      ensures Valid() && fed == [] && this.length == length && this.cosine == cosine && this.sine == sine
    {
      q0, q1, q2, cnt := 0.0, 0.0, 0.0, 0;
      this.length, this.cosine, this.sine := length, cosine, sine;
      fed := [];
    }

    method Consume(dat: seq<real>)
      requires Valid()
      modifies `q0, `q1, `q2, `cnt, `fed
      ensures Valid() && fed == old(fed) + dat
    {
      var coeff := 2.0 * cosine;
      cnt := cnt + |dat|;
      ghost var before := fed;
      fed := fed + dat;
      assert before + dat[..0] == before;
      hide FeedAll, Next, OnUnitCircle;
      for i := 0 to |dat|
        invariant fed == before + dat && cnt == |fed|
        invariant Delay(q1, q2) == FeedAll(before + dat[..i], cosine) && coeff == 2.0 * cosine
      {
        FeedOneMore(before, dat, i, cosine);
        q0 := Next(dat[i], coeff, q1, q2);
        q2 := q1;
        q1 := q0;
      }
      assert dat[..|dat|] == dat;
    }

    /** goertzel_update: samples are refused once enough of them were fed. */
    method Update(dat: seq<real>) returns (r: int)
      requires Valid()
      modifies `q0, `q1, `q2, `cnt, `fed
      ensures Valid() && fed == Accepted(old(fed), length, dat)
      ensures r == if |old(fed)| < length then 0 else -1
    {
      if cnt < length {
        Consume(dat);
        r := 0;
      } else {
        r := -1;
      }
    }

    /** goertzel_final: it takes all it is given, and succeeds if exactly enough was fed. */
    method Final(dat: Option<seq<real>>) returns (r: int, rl: real, ig: real)
      requires Valid()
      modifies `q0, `q1, `q2, `cnt, `fed
      ensures Valid() && fed == old(fed) + (if dat.None? then [] else dat.value)
      ensures r == if |fed| == length then 0 else -1
      ensures r == 0 ==> Complex(rl, ig) == Result(FeedAll(fed, cosine), Complex(cosine, sine))
    {
      hide FeedAll, OnUnitCircle;
      rl, ig := 0.0, 0.0;
      var coeff := 2.0 * cosine;
      if dat.Some? && |dat.value| > 0 {
        Consume(dat.value);
      }
      if cnt == length {
        rl := 0.5 * q1 * coeff - q2;
        ig := q1 * sine;
        r := 0;
      } else {
        r := -1;
      }
    }
  }

  function Accepted(fed: seq<real>, length: int, dat: seq<real>): seq<real> {
    if |fed| < length then fed + dat else fed
  }

  /** The samples fed by a run of updates. */
  function Fed(length: int, chunks: seq<seq<real>>): seq<real> {
    if chunks == [] then [] else Accepted(Fed(length, chunks[..|chunks|-1]), length, chunks[|chunks|-1])
  }

  function Concat(chunks: seq<seq<real>>): seq<real> {
    if chunks == [] then [] else Concat(chunks[..|chunks|-1]) + chunks[|chunks|-1]
  }

  /** A session: the updates, and the final call. */
  method Session(algo: Algo, length: int, cosine: real, sine: real, chunks: seq<seq<real>>, last: Option<seq<real>>)
    returns (r: int, rl: real, ig: real)
    requires OnUnitCircle(cosine, sine)
    modifies algo
    ensures var all := Fed(length, chunks) + (if last.None? then [] else last.value);
      r == (if |all| == length then 0 else -1)
      && (r == 0 ==> Complex(rl, ig) == Result(FeedAll(all, cosine), Complex(cosine, sine)))
  {
    algo.Init(length, cosine, sine);
    for i := 0 to |chunks|
      invariant algo.Valid() && algo.fed == Fed(length, chunks[..i])
      invariant algo.length == length && algo.cosine == cosine && algo.sine == sine
    {
      var _ := algo.Update(chunks[i]);
      assert chunks[..i+1][..i] == chunks[..i];
    }
    assert chunks[..|chunks|] == chunks;
    r, rl, ig := algo.Final(last);
  }

  /** The updates feed everything, or stop at the first prefix that reaches the length. */
  lemma {:induction false} FedStops(length: int, chunks: seq<seq<real>>) returns (k: nat)
    ensures k <= |chunks| && Fed(length, chunks) == Concat(chunks[..k])
    ensures |Concat(chunks[..k])| < length ==> k == |chunks|
    ensures forall i | 0 <= i < k :: |Concat(chunks[..i])| < length
  {
    k := |chunks|;
    if chunks != [] {
      var most := chunks[..|chunks|-1];
      k := FedStops(length, most);
      assert forall i | 0 <= i < |chunks| :: most[..i] == chunks[..i];
      if |Fed(length, most)| < length {
        assert most[..k] == most;
        k := |chunks|;
      }
    }
    assert chunks[..|chunks|] == chunks;
  }

  lemma {:induction false} ConcatGrows(chunks: seq<seq<real>>, i: nat, k: nat)
    requires i <= k <= |chunks|
    ensures Concat(chunks[..i]) <= Concat(chunks[..k])
  {
    if i < k {
      ConcatGrows(chunks, i, k - 1);
      assert chunks[..k][..k-1] == chunks[..k-1];
    }
  }

  /** However the samples are split, the piecewise form gives what the one-shot form gives. */
  lemma SplitDoesNotMatter(length: int, chunks: seq<seq<real>>, last: seq<real>)
    requires |Concat(chunks) + last| == length
    ensures Fed(length, chunks) + last == Concat(chunks) + last
  {
    var k := FedStops(length, chunks);
    ConcatGrows(chunks, k, |chunks|);
    assert chunks[..|chunks|] == chunks;
  }

  /** A session succeeds exactly if its samples are just enough, or the updates alone came to just
      enough at some point and nothing but refused updates followed. */
  lemma SessionSucceedsIff(length: int, chunks: seq<seq<real>>, last: seq<real>)
    ensures |Fed(length, chunks) + last| == length <==>
      |Concat(chunks) + last| == length || (last == [] && exists k | 0 <= k <= |chunks| :: |Concat(chunks[..k])| == length)
  {
    var k := FedStops(length, chunks);
    assert chunks[..|chunks|] == chunks;
    forall i | 0 <= i <= |chunks|
      ensures i <= k ==> |Concat(chunks[..i])| <= |Concat(chunks[..k])|
      ensures k <= i ==> |Concat(chunks[..k])| <= |Concat(chunks[..i])|
    {
      if i <= k {
        ConcatGrows(chunks, i, k);
      } else {
        ConcatGrows(chunks, k, i);
      }
    }
  }

  lemma ConcatOne(chunk: seq<real>)
    ensures Concat([chunk]) == chunk
    ensures forall length: int | length > 0 :: Fed(length, [chunk]) == chunk
  {
    assert [chunk][..0] == [];
    assert [] + chunk == chunk;
  }

  /** Three samples in one piece, where two are wanted: all are taken, and the session fails. */
  lemma OverfedSessionFails()
    ensures var chunks := [[1.0, 2.0, 3.0]];
      Fed(2, chunks) == Concat(chunks) && |Fed(2, chunks) + []| != 2
  {
    ConcatOne([1.0, 2.0, 3.0]);
  }

  /** The same three samples in two pieces: the second is refused, and the session succeeds with the
      first. */
  lemma SurplusIsRefused()
    ensures var chunks := [[1.0, 2.0], [3.0]];
      Concat(chunks) == [1.0, 2.0, 3.0] && Fed(2, chunks) == [1.0, 2.0] && |Fed(2, chunks) + []| == 2
  {
    var chunks := [[1.0, 2.0], [3.0]];
    assert chunks[..1] == [[1.0, 2.0]];
    ConcatOne([1.0, 2.0]);
  }
}
