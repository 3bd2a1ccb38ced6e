/** One attention head on the accelerator, from the buffers of the program to the formula of the design. */
module Attention {
  import opened Arith
  import opened Words
  import opened Machine
  import opened Wavefront
  import opened Feeding
  import opened Systolic
  import opened Walks
  import opened Matrices
  import opened DenseProduct
  import opened Multiplier
  import opened Elements
  import opened MatrixKernels
  import Transpose
  import Softmax

  /** softmax((X Wq)(X Wk)^T)(X Wv), scaled, with the lane arithmetic of the program. */
  ghost function AttentionOf(l: Lanes, n: nat, d: nat, h: nat, x: Matrix, w: Heads): (r: Matrix)
    requires l.bits >= 5 && IsMatrix(n, d, x) && w.Are(d, h)
    ensures IsMatrix(n, h, r)
  {
    var q, k, v := MatMul(l, x, w.q, n, d, h), MatMul(l, x, w.k, n, d, h), MatMul(l, x, w.v, n, d, h);
    var scores := SoftmaxMatrix(l, n, n, MatMul(l, q, Transposed(n, h, k), n, h, n));
    ScaledMatrix(l, n, h, MatMul(l, scores, v, n, n, h))
  }

  /** The three weight matrices of a head. */
  datatype Heads = Heads(q: Matrix, k: Matrix, v: Matrix) {
    ghost predicate Are(d: nat, h: nat) {
      IsMatrix(d, h, q) && IsMatrix(d, h, k) && IsMatrix(d, h, v)
    }
  }

  /** The matrices in the buffers of a head and in its output. */
  datatype Memory = Memory(q: Matrix, k: Matrix, v: Matrix, scores: Matrix, out: Matrix) {
    ghost predicate Is(n: nat, h: nat) {
      IsMatrix(n, h, q) && IsMatrix(n, h, k) && IsMatrix(n, h, v) && IsMatrix(n, n, scores) && IsMatrix(n, h, out)
    }
  }

  /** Everything accumulates: queries, keys and values after a call that found `m`. */
  ghost function Projections(l: Lanes, n: nat, d: nat, h: nat, x: Matrix, w: Heads, m: Memory): (r: Memory)
    requires l.bits >= 5 && IsMatrix(n, d, x) && w.Are(d, h) && m.Is(n, h)
    ensures r.Is(n, h) && r.scores == m.scores && r.out == m.out
  {
    m.(q := MatMulAdd(l, m.q, x, w.q, n, d, h), k := MatMulAdd(l, m.k, x, w.k, n, d, h), v := MatMulAdd(l, m.v, x, w.v, n, d, h))
  }

  /** What the softmax is applied to. */
  ghost function Logits(l: Lanes, n: nat, d: nat, h: nat, x: Matrix, w: Heads, m: Memory): (a: Matrix)
    requires l.bits >= 5 && IsMatrix(n, d, x) && w.Are(d, h) && m.Is(n, h)
    ensures IsMatrix(n, n, a)
  {
    var p := Projections(l, n, d, h, x, w, m);
    MatMulAdd(l, m.scores, p.q, Transposed(n, h, p.k), n, h, n)
  }

  /** One call of the head, on whatever its buffers and the output hold. */
  ghost function HeadStep(l: Lanes, n: nat, d: nat, h: nat, x: Matrix, w: Heads, m: Memory): (r: Memory)
    requires l.bits >= 5 && IsMatrix(n, d, x) && w.Are(d, h) && m.Is(n, h)
    ensures r.Is(n, h)
  {
    var p, s := Projections(l, n, d, h, x, w, m), SoftmaxMatrix(l, n, n, Logits(l, n, d, h, x, w, m));
    p.(scores := s, out := ScaledMatrix(l, n, h, MatMulAdd(l, m.out, s, p.v, n, n, h)))
  }

  ghost function ZeroMemory(n: nat, h: nat): (m: Memory)
    ensures m.Is(n, h)
  {
    Memory(ZeroMatrix(n, h), ZeroMatrix(n, h), ZeroMatrix(n, h), ZeroMatrix(n, n), ZeroMatrix(n, h))
  }

  /** On zeros a call computes the formula. */
  lemma FirstCall(l: Lanes, n: nat, d: nat, h: nat, x: Matrix, w: Heads)
    requires l.bits >= 5 && IsMatrix(n, d, x) && w.Are(d, h)
    ensures HeadStep(l, n, d, h, x, w, ZeroMemory(n, h)).out == AttentionOf(l, n, d, h, x, w)
  {
    hide MatMulAdd, SoftmaxMatrix, ScaledMatrix, Transposed;
  }

  /** A second call with the same input finds the results of the first: its queries, keys and values are doubled. */
  lemma SecondCall(l: Lanes, n: nat, d: nat, h: nat, x: Matrix, w: Heads, i: nat, e: nat)
    requires l.Valid() && l.bits >= 5 && IsMatrix(n, d, x) && w.Are(d, h) && i < n && e < h
    ensures var m := HeadStep(l, n, d, h, x, w, ZeroMemory(n, h));
            var r := Projections(l, n, d, h, x, w, m);
            && r.q[i][e] == Wrap(l, 2 * RowDot(x[i], w.q, e, d)) && r.k[i][e] == Wrap(l, 2 * RowDot(x[i], w.k, e, d))
            && r.v[i][e] == Wrap(l, 2 * RowDot(x[i], w.v, e, d))
  {
    hide RowDot, Wrap, SoftmaxMatrix, ScaledMatrix, Transposed, Logits;
    WrapTwice(l, RowDot(x[i], w.q, e, d));
    WrapTwice(l, RowDot(x[i], w.k, e, d));
    WrapTwice(l, RowDot(x[i], w.v, e, d));
  }

  lemma WrapTwice(l: Lanes, v: int)
    requires l.bits >= 1
    ensures Wrap(l, Wrap(l, 0 + v) + v) == Wrap(l, 2 * v)
  {
    hide Signed, Pow2;
    SignedRange(l, v % Pow2(l.bits));
    SameResidue(Signed(l, v % Pow2(l.bits)), v, Pow2(l.bits));
  }

  lemma SameResidue(u: int, v: int, p: int)
    requires p > 0 && u % p == v % p
    ensures (u + v) % p == (2 * v) % p
  {
    ModAddLeft(u, v, p);
    ModAddLeft(v, v, p);
  }

  /** The array can start a product, and weights are read like activations. */
  ghost predicate DeviceReady(smm: SystolicArray)
    reads smm, smm.Repr()
  {
    smm.Valid() && Aligned(smm.g) && ZeroTop(smm.g, smm.Now()) && smm.g.act == smm.g.wgt
  }

  lemma SameLayouts(g: Geometry)
    requires g.Valid() && g.act == g.wgt
    ensures ActLayout(g) == WgtLayout(g) && ActLayout(g).Valid()
  {
    hide Mul;
    MulUnique(g.act.per, g.actCols, 0, g.wgtCols, 0);
  }

  /** One product on the array, added to the output, with both factors and the result in the same layout. */
  method Multiply(mult: SparseMatrixMultiplier, input: array<Word>, kernel: array<Word>, output: array<Word>)
    requires DeviceReady(mult.smm) && mult.g == mult.smm.g && output !in {input, kernel}
    requires {input as object, kernel, output} !! mult.smm.Repr()
    requires var y := ActLayout(mult.g);
             && IsBuffer(y, mult.seqLen, mult.RowInW(), input[..])
             && IsBuffer(y, Mul(mult.RowInW(), y.k), mult.ColInW(), kernel[..])
             && IsBuffer(y, mult.seqLen, mult.ColInW(), output[..])
    modifies mult.smm.Repr(), output
    ensures DeviceReady(mult.smm) && ActLayout(mult.g).Valid()
    ensures var y, r, c := ActLayout(mult.g), mult.RowInW(), mult.ColInW();
            MatrixOf(y, mult.seqLen, c, output[..])
            == MatMulAdd(y.l, MatrixOf(y, mult.seqLen, c, old(output[..])), MatrixOf(y, mult.seqLen, r, input[..]),
                         MatrixOf(y, Mul(r, y.k), c, kernel[..]), mult.seqLen, Mul(r, y.k), Mul(c, y.k))
  {
    hide Mul, MatrixOf, MatMulAdd, Walk, DenseVisits, Aligned, ZeroTop, Shaped, LaneValues;
    ghost var job, out := mult.JobFor(input), output[..];
    SameLayouts(mult.g);
    KernelSize(job);
    DenseIsMatMulAdd(job, kernel[..], out);
    mult.ComputeNonPruned(input, output, kernel);
  }

  /** A softmax in place. */
  method SoftmaxInPlace(y: Layout, buf: array<Word>, n: nat)
    requires y.Valid() && y.k > 0 && y.l.bits >= 8 && IsBuffer(y, n, n / y.k, buf[..])
    requires ScoresFit(y.l, MatrixOf(y, n, n / y.k, buf[..]))
    modifies buf
    ensures MatrixOf(y, n, n / y.k, buf[..]) == SoftmaxMatrix(y.l, n, Mul(n / y.k, y.k), MatrixOf(y, n, n / y.k, old(buf[..])))
  {
    hide Mul, MatrixOf, Flat, Elements.Rows, Softmax.SoftRows, SoftmaxMatrix, Softmax.MassesFit, ScoresFit;
    ghost var s := buf[..];
    BufferElements(y, n, n / y.k);
    MassesOfBuffer(y, n, n / y.k, s);
    Softmax.ComputeRearranged(y.l, y.k, buf, n);
    SoftmaxOfBuffer(y, n, n / y.k, s, buf[..]);
  }

  /** The final scaling in place. */
  method ScaleInPlace(y: Layout, buf: array<Word>, n: nat, h: nat)
    requires y.Valid() && y.k > 0 && h == Mul(h / y.k, y.k) && IsBuffer(y, n, h / y.k, buf[..])
    modifies buf
    ensures MatrixOf(y, n, h / y.k, buf[..]) == ScaledMatrix(y.l, n, h, MatrixOf(y, n, h / y.k, old(buf[..])))
  {
    hide Mul, MatrixOf, Flat, ScaledMatrix;
    ghost var s := buf[..];
    BufferElements(y, n, h / y.k);
    MulMul(h / y.k, n, y.k);
    MulSwap(h / y.k, n);
    MulMul(n, h / y.k, y.k);
    Softmax.PostSoftmax(y.l, buf, n, h);
    ScaledBuffer(y, n, h / y.k, s, buf[..]);
  }

  /** The buffers a head owns. */
  datatype Buffers = Buffers(query: array<Word>, key: array<Word>, keyTransposed: array<Word>, value: array<Word>,
                             scores: array<Word>) {
    ghost function All(): set<object> {
      {query, key, keyTransposed, value, scores}
    }

    ghost predicate Distinct() {
      && query != key && query != keyTransposed && query != value && query != scores
      && key != keyTransposed && key != value && key != scores
      && keyTransposed != value && keyTransposed != scores && value != scores
    }

    /** Room for `n` rows of a head of width `h`, and for the scores. */
    ghost predicate Sized(g: Geometry, n: nat, h: nat) {
      && HasLength(g, n, h, query) && HasLength(g, n, h, key) && HasLength(g, h, n, keyTransposed)
      && HasLength(g, n, h, value) && HasLength(g, n, n, scores)
    }

    ghost predicate Zero()
      reads All()
    {
      ZeroTile(query[..]) && ZeroTile(key[..]) && ZeroTile(value[..]) && ZeroTile(scores[..])
    }
  }

  ghost predicate HasLength(g: Geometry, n: nat, cols: nat, buf: array<Word>) {
    g.k > 0 && buf.Length == Mul(cols / g.k, Mul(n, g.actCols))
  }

  method NewBuffers(g: Geometry, n: nat, h: nat) returns (b: Buffers)
    requires g.Valid() && Multiple(g, n) && Multiple(g, h)
    ensures fresh(b.All()) && b.Distinct() && b.Sized(g, n, h) && b.Zero()
  {
    hide Mul, ZeroTile, Multiple;
    BufferLength(g, n, h);
    BufferLength(g, n, n);
    BufferLength(g, h, n);
    MulSwap(n, h);
    var query := NewBuffer(Mul(n, h) / g.act.per);
    var key := NewBuffer(Mul(n, h) / g.act.per);
    var keyTransposed := NewBuffer(Mul(n, h) / g.act.per);
    var value := NewBuffer(Mul(n, h) / g.act.per);
    var scores := NewBuffer(Mul(n, n) / g.act.per);
    b := Buffers(query, key, keyTransposed, value, scores);
  }

  /** The products of a head, all on the same array. */
  datatype Products = Products(query: SparseMatrixMultiplier, key: SparseMatrixMultiplier, value: SparseMatrixMultiplier,
                               qkt: SparseMatrixMultiplier, attV: SparseMatrixMultiplier) {
    ghost predicate Sized(smm: SystolicArray, n: nat, d: nat, h: nat) {
      && HasShape(query, smm, n, d, h) && HasShape(key, smm, n, d, h) && HasShape(value, smm, n, d, h)
      && HasShape(qkt, smm, n, h, n) && HasShape(attV, smm, n, n, h)
    }
  }

  ghost predicate HasShape(m: SparseMatrixMultiplier, smm: SystolicArray, n: nat, inputSize: nat, outputSize: nat) {
    m.smm == smm && m.g == smm.g && m.inputSize == inputSize && m.outputSize == outputSize && m.seqLen == n
  }

  method NewProducts(smm: SystolicArray, n: nat, d: nat, h: nat) returns (p: Products)
    ensures p.Sized(smm, n, d, h)
  {
    var query := new SparseMatrixMultiplier(smm, d, h, n);
    var key := new SparseMatrixMultiplier(smm, d, h, n);
    var value := new SparseMatrixMultiplier(smm, d, h, n);
    var qkt := new SparseMatrixMultiplier(smm, h, n, n);
    var attV := new SparseMatrixMultiplier(smm, n, h, n);
    p := Products(query, key, value, qkt, attV);
  }

  datatype Weights = Weights(query: array<Word>, key: array<Word>, value: array<Word>) {
    ghost function All(): set<object> {
      {query, key, value}
    }

    ghost predicate Sized(g: Geometry, d: nat, h: nat) {
      IsWeight(g, d, h, query) && IsWeight(g, d, h, key) && IsWeight(g, d, h, value)
    }
  }

  class SingleHeadSelfAttn {
    const smm: SystolicArray
    const preSeqLen: nat
    const inputDim: nat
    const headHiddenSize: nat
    const products: Products
    const weights: Weights
    const buffers: Buffers

    /** The parts of the object fit together; none of this ever changes. */
    ghost predicate Wired() {
      && smm.g.Valid() && Multiple(smm.g, preSeqLen) && Multiple(smm.g, headHiddenSize)
      && products.Sized(smm, preSeqLen, inputDim, headHiddenSize) && weights.Sized(smm.g, inputDim, headHiddenSize)
      && buffers.Sized(smm.g, preSeqLen, headHiddenSize) && buffers.Distinct()
      && buffers.All() !! smm.Repr() + weights.All() && weights.All() !! smm.Repr()
    }

    constructor (smm: SystolicArray, preSeqLen: nat, inputDim: nat, headHiddenSize: nat, weights: Weights)
      requires smm.g.Valid() && Multiple(smm.g, preSeqLen) && Multiple(smm.g, headHiddenSize)
      requires weights.Sized(smm.g, inputDim, headHiddenSize) && weights.All() !! smm.Repr()
      ensures this.smm == smm && this.preSeqLen == preSeqLen && this.inputDim == inputDim
      ensures this.headHiddenSize == headHiddenSize && this.weights == weights
      ensures Wired() && buffers.Zero() && fresh(buffers.All())
    {
      this.smm, this.preSeqLen, this.inputDim, this.headHiddenSize := smm, preSeqLen, inputDim, headHiddenSize;
      this.weights := weights;
      var p := NewProducts(smm, preSeqLen, inputDim, headHiddenSize);
      var b := NewBuffers(smm.g, preSeqLen, headHiddenSize);
      products, buffers := p, b;
    }

    // Shorthands for the contracts: the layout of all buffers, and matrices in it.

    ghost function Y(): Layout {
      ActLayout(smm.g)
    }

    ghost function Read(rows: nat, cols: nat, buf: array<Word>): (a: Matrix)
      requires smm.g.Valid() && Multiple(smm.g, cols) && HasLength(smm.g, rows, cols, buf)
      reads buf
      ensures IsMatrix(rows, cols, a)
    {
      MatrixOf(Y(), rows, cols / smm.g.k, buf[..])
    }

    /** The arguments of a call: separate from each other and from what the object writes. */
    ghost predicate Accepts(seqLen: nat, input: array<Word>, output: array<Word>) {
      && Wired() && Uniform(smm.g) && seqLen == preSeqLen && Multiple(smm.g, inputDim)
      && HasLength(smm.g, preSeqLen, inputDim, input) && HasLength(smm.g, preSeqLen, headHiddenSize, output)
      && input != output && {input as object, output} !! smm.Repr() + buffers.All() && output as object !in weights.All()
    }

    /** What all buffers and the output hold. */
    ghost function Contents(output: array<Word>): (m: Memory)
      requires Wired() && HasLength(smm.g, preSeqLen, headHiddenSize, output)
      reads buffers.All(), output
      ensures m.Is(preSeqLen, headHiddenSize)
    {
      var n, h := preSeqLen, headHiddenSize;
      Memory(Read(n, h, buffers.query), Read(n, h, buffers.key), Read(n, h, buffers.value), Read(n, n, buffers.scores), Read(n, h, output))
    }

    ghost function WeightMatrices(): (w: Heads)
      requires Wired() && Uniform(smm.g) && Multiple(smm.g, inputDim)
      reads weights.All()
      ensures w.Are(inputDim, headHiddenSize)
    {
      var d, h := inputDim, headHiddenSize;
      Heads(Read(d, h, weights.query), Read(d, h, weights.key), Read(d, h, weights.value))
    }

    /** What is needed of a factor, a weight and a result of a product. */
    ghost predicate Apart(input: array<Word>, weight: array<Word>, out: array<Word>) {
      {input as object, weight, out} !! smm.Repr() && out !in {input, weight}
    }

    /** One projection, added to its buffer. */
    method ProjectOne(layer: SparseMatrixMultiplier, input: array<Word>, weight: array<Word>, out: array<Word>)
      requires Wired() && Uniform(smm.g) && Multiple(smm.g, inputDim) && DeviceReady(smm)
      requires HasShape(layer, smm, preSeqLen, inputDim, headHiddenSize) && Apart(input, weight, out)
      requires HasLength(smm.g, preSeqLen, inputDim, input) && IsWeight(smm.g, inputDim, headHiddenSize, weight)
      requires HasLength(smm.g, preSeqLen, headHiddenSize, out)
      modifies smm.Repr(), out
      ensures DeviceReady(smm)
      ensures Read(preSeqLen, headHiddenSize, out)
           == MatMulAdd(smm.g.act, old(Read(preSeqLen, headHiddenSize, out)), Read(preSeqLen, inputDim, input),
                        Read(inputDim, headHiddenSize, weight), preSeqLen, inputDim, headHiddenSize)
    {
      hide Mul, MatrixOf, MatMulAdd, DeviceReady;
      Multiply(layer, input, weight, out);
    }

    /** The keys transposed. */
    method TransposeKeys()
      requires Wired()
      modifies buffers.keyTransposed
      ensures Read(headHiddenSize, preSeqLen, buffers.keyTransposed)
           == Transposed(preSeqLen, headHiddenSize, Read(preSeqLen, headHiddenSize, buffers.key))
    {
      hide Mul, MatrixOf, Transposed, Transpose.TransposedBuffer;
      var y := ActLayout(smm.g);
      Transpose.TransposeMoves(y, headHiddenSize / y.k, y, preSeqLen / y.k, buffers.key[..]);
      Transpose.TransposeRearranged(y, buffers.key, buffers.keyTransposed, headHiddenSize, preSeqLen);
    }

    /** The buffer has gained the product of the input with one weight matrix. */
    ghost predicate AddedProduct(input: array<Word>, weight: array<Word>, before: Matrix, buf: array<Word>)
      requires Wired() && Uniform(smm.g) && Multiple(smm.g, inputDim) && IsMatrix(preSeqLen, headHiddenSize, before)
      requires HasLength(smm.g, preSeqLen, inputDim, input) && IsWeight(smm.g, inputDim, headHiddenSize, weight)
      requires HasLength(smm.g, preSeqLen, headHiddenSize, buf)
      reads input, weight, buf
    {
      Read(preSeqLen, headHiddenSize, buf)
      == MatMulAdd(smm.g.act, before, Read(preSeqLen, inputDim, input), Read(inputDim, headHiddenSize, weight),
                   preSeqLen, inputDim, headHiddenSize)
    }

    /** Queries, keys and values, and the keys transposed. */
    method Project(input: array<Word>, output: array<Word>)
      requires Accepts(preSeqLen, input, output) && DeviceReady(smm) && smm.g.act.bits >= 8
      modifies smm.Repr(), buffers.query, buffers.key, buffers.value, buffers.keyTransposed
      ensures DeviceReady(smm)
      ensures Contents(output) == Projections(smm.g.act, preSeqLen, inputDim, headHiddenSize, Read(preSeqLen, inputDim, input),
                                              WeightMatrices(), old(Contents(output)))
      ensures AddedProduct(input, weights.query, old(Read(preSeqLen, headHiddenSize, buffers.query)), buffers.query)
      ensures AddedProduct(input, weights.key, old(Read(preSeqLen, headHiddenSize, buffers.key)), buffers.key)
      ensures AddedProduct(input, weights.value, old(Read(preSeqLen, headHiddenSize, buffers.value)), buffers.value)
      ensures Read(headHiddenSize, preSeqLen, buffers.keyTransposed)
           == Transposed(preSeqLen, headHiddenSize, Read(preSeqLen, headHiddenSize, buffers.key))
    {
      hide Mul, Read, MatMulAdd, Transposed, DeviceReady, HasLength, IsWeight, Uniform, Multiple, HasShape;
      ProjectOne(products.query, input, weights.query, buffers.query);
      ProjectOne(products.key, input, weights.key, buffers.key);
      ProjectOne(products.value, input, weights.value, buffers.value);
      TransposeKeys();
    }

    /** Scores from queries and transposed keys. */
    method Score()
      requires Wired() && Uniform(smm.g) && DeviceReady(smm) && smm.g.act.bits >= 8
      requires ScoresFit(smm.g.act, Raw())
      modifies smm.Repr(), buffers.scores
      ensures DeviceReady(smm)
      ensures Read(preSeqLen, preSeqLen, buffers.scores) == SoftmaxMatrix(smm.g.act, preSeqLen, preSeqLen, old(Raw()))
    {
      hide Mul, MatrixOf, MatMulAdd, DeviceReady, SoftmaxMatrix, ScoresFit;
      Multiply(products.qkt, buffers.query, buffers.keyTransposed, buffers.scores);
      SoftmaxInPlace(ActLayout(smm.g), buffers.scores, preSeqLen);
    }

    /** The scores before the softmax. */
    ghost function Raw(): (a: Matrix)
      requires Wired()
      reads buffers.All()
      ensures IsMatrix(preSeqLen, preSeqLen, a)
    {
      MatMulAdd(smm.g.act, Read(preSeqLen, preSeqLen, buffers.scores), Read(preSeqLen, headHiddenSize, buffers.query),
                Read(headHiddenSize, preSeqLen, buffers.keyTransposed), preSeqLen, headHiddenSize, preSeqLen)
    }

    /** The result from scores and values. */
    method Attend(output: array<Word>)
      requires Wired() && Uniform(smm.g) && DeviceReady(smm)
      requires HasLength(smm.g, preSeqLen, headHiddenSize, output) && Apart(buffers.scores, buffers.value, output)
      modifies smm.Repr(), output
      ensures DeviceReady(smm)
      ensures Read(preSeqLen, headHiddenSize, output)
           == ScaledMatrix(smm.g.act, preSeqLen, headHiddenSize,
                           MatMulAdd(smm.g.act, old(Read(preSeqLen, headHiddenSize, output)),
                                     Read(preSeqLen, preSeqLen, buffers.scores), Read(preSeqLen, headHiddenSize, buffers.value),
                                     preSeqLen, preSeqLen, headHiddenSize))
    {
      hide Mul, MatrixOf, MatMulAdd, DeviceReady, ScaledMatrix;
      Multiply(products.attV, buffers.scores, buffers.value, output);
      ScaleInPlace(ActLayout(smm.g), output, preSeqLen, headHiddenSize);
    }

    /** One call of the head, whatever its buffers and the output hold. */
    method Compute(seqLen: nat, input: array<Word>, output: array<Word>)
      requires Accepts(seqLen, input, output) && DeviceReady(smm) && smm.g.act.bits >= 8
      requires ScoresFit(smm.g.act, Logits(smm.g.act, preSeqLen, inputDim, headHiddenSize, Read(preSeqLen, inputDim, input),
                                           WeightMatrices(), Contents(output)))
      modifies smm.Repr(), buffers.All(), output
      ensures DeviceReady(smm)
      ensures AddedProduct(input, weights.query, old(Read(preSeqLen, headHiddenSize, buffers.query)), buffers.query)
      ensures AddedProduct(input, weights.key, old(Read(preSeqLen, headHiddenSize, buffers.key)), buffers.key)
      ensures AddedProduct(input, weights.value, old(Read(preSeqLen, headHiddenSize, buffers.value)), buffers.value)
      ensures var l, n, h := smm.g.act, preSeqLen, headHiddenSize;
              && Read(n, n, buffers.scores)
                 == SoftmaxMatrix(l, n, n, MatMulAdd(l, old(Read(n, n, buffers.scores)), Read(n, h, buffers.query),
                                                     Transposed(n, h, Read(n, h, buffers.key)), n, h, n))
              && Read(n, h, output)
                 == ScaledMatrix(l, n, h, MatMulAdd(l, old(Read(n, h, output)), Read(n, n, buffers.scores),
                                                    Read(n, h, buffers.value), n, n, h))
      ensures Contents(output) == HeadStep(smm.g.act, preSeqLen, inputDim, headHiddenSize, Read(preSeqLen, inputDim, input),
                                           WeightMatrices(), old(Contents(output)))
    {
      hide Mul, Read, DeviceReady, HasLength, IsWeight, Uniform, Multiple, HasShape, MatMulAdd, SoftmaxMatrix, ScaledMatrix,
           Transposed, ScoresFit;
      Project(input, output);
      Score();
      Attend(output);
    }

    /** On a new head and a zero output one call computes the formula. */
    method ComputeOnce(seqLen: nat, input: array<Word>, output: array<Word>)
      requires Accepts(seqLen, input, output) && DeviceReady(smm) && smm.g.act.bits >= 8
      requires buffers.Zero() && ZeroTile(output[..])
      requires ScoresFit(smm.g.act, Logits(smm.g.act, preSeqLen, inputDim, headHiddenSize, Read(preSeqLen, inputDim, input),
                                           WeightMatrices(), ZeroMemory(preSeqLen, headHiddenSize)))
      modifies smm.Repr(), buffers.All(), output
      ensures DeviceReady(smm)
      ensures ActLayout(smm.g).Valid()
      ensures var y, n, d, h := ActLayout(smm.g), preSeqLen, inputDim, headHiddenSize;
              var x := MatrixOf(y, n, d / y.k, input[..]);
              var wq, wk := MatrixOf(y, d, h / y.k, weights.query[..]), MatrixOf(y, d, h / y.k, weights.key[..]);
              var wv := MatrixOf(y, d, h / y.k, weights.value[..]);
              var logits := MatMul(y.l, MatMul(y.l, x, wq, n, d, h), Transposed(n, h, MatMul(y.l, x, wk, n, d, h)), n, h, n);
              MatrixOf(y, n, h / y.k, output[..])
              == ScaledMatrix(y.l, n, h, MatMul(y.l, SoftmaxMatrix(y.l, n, n, logits), MatMul(y.l, x, wv, n, d, h), n, n, h))
    {
      hide Mul, MatrixOf, DeviceReady, ScoresFit, MatMul, SoftmaxMatrix, ScaledMatrix, Transposed, HeadStep, Logits, ZeroTile;
      ZeroContents(output);
      FirstCall(smm.g.act, preSeqLen, inputDim, headHiddenSize, Read(preSeqLen, inputDim, input), WeightMatrices());
      Compute(seqLen, input, output);
    }

    lemma ZeroContents(output: array<Word>)
      requires Wired() && HasLength(smm.g, preSeqLen, headHiddenSize, output) && buffers.Zero() && ZeroTile(output[..])
      ensures Contents(output) == ZeroMemory(preSeqLen, headHiddenSize)
    {
      hide Mul, MatrixOf, ZeroTile, ZeroMatrix;
      var y, n, h := Y(), preSeqLen, headHiddenSize;
      ZeroBuffer(y, n, h / y.k, buffers.query[..]);
      ZeroBuffer(y, n, h / y.k, buffers.key[..]);
      ZeroBuffer(y, n, h / y.k, buffers.value[..]);
      ZeroBuffer(y, n, n / y.k, buffers.scores[..]);
      ZeroBuffer(y, n, h / y.k, output[..]);
    }
  }

  ghost predicate Uniform(g: Geometry) {
    g.act == g.wgt && g.actCols == g.wgtCols
  }

  /** The size of a weight matrix with `inputDim` rows and `outputDim` columns. */
  ghost predicate IsWeight(g: Geometry, inputDim: nat, outputDim: nat, w: array<Word>) {
    g.k > 0 && w.Length == Mul(outputDim / g.k, Mul(Mul(inputDim / g.k, g.k), g.wgtCols))
  }

  /** A buffer of zeros. */
  method NewBuffer(words: nat) returns (buf: array<Word>)
    ensures fresh(buf) && buf.Length == words && ZeroTile(buf[..])
  {
    buf := new Word[words](_ => 0);
  }

  ghost predicate Multiple(g: Geometry, n: nat) {
    g.k > 0 && Mul(n / g.k, g.k) == n
  }

  lemma BufferLength(g: Geometry, n: nat, m: nat)
    requires g.Valid() && Multiple(g, m)
    ensures Mul(n, m) / g.act.per == Mul(m / g.k, Mul(n, g.actCols))
  {
    hide Mul;
    var b := m / g.k;
    MulMul(n, b, g.k);
    MulSwap(n, b);
    MulMul(b, n, g.k);
    MulMul(n, g.actCols, g.act.per);
    MulMul(b, Mul(n, g.actCols), g.act.per);
    MulDiv(g.act.per, Mul(b, Mul(n, g.actCols)), 0);
  }
}
