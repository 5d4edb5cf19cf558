/**
  The weight unpacking of the training program's network factory: a flat
  weight vector is split, by index arithmetic alone, into the input-to-hidden
  matrix, the hidden-to-output matrix and the two bias vectors of a network
  with one hidden layer. Weights are opaque values of type W; `zero` stands
  for the default value the freshly allocated arrays start with.
*/
module Training {
  import opened Wrappers
  import opened Grid

  /** Numbers of input, hidden and output nodes. */
  datatype Shape = Shape(inputs: nat, hiddens: nat, outputs: nat)

  /** The length of the weight vector the trainer is built with. */
  function WeightCount(shape: Shape): nat
  {
    shape.inputs * shape.hiddens + shape.hiddens * shape.outputs + shape.hiddens + shape.outputs
  }

  /** A destination of one weight: a cell of one of the two matrices, or an entry of one of the two bias vectors. */
  datatype Slot =
    | HiddenWeight(column: int, row: int)
    | OutputWeight(column: int, row: int)
    | HiddenBias(index: int)
    | OutputBias(index: int)

  /** The slot exists in the arrays allocated for the shape. */
  predicate ValidSlot(shape: Shape, s: Slot)
  {
    match s
    case HiddenWeight(c, r) => 0 <= c < shape.inputs && 0 <= r < shape.hiddens
    case OutputWeight(c, r) => 0 <= c < shape.hiddens && 0 <= r < shape.outputs
    case HiddenBias(i) => 0 <= i < shape.hiddens
    case OutputBias(i) => 0 <= i < shape.outputs
  }

  /**
    Where the loop writes weight i. Every subscript is within its array
    exactly when i is below the weight count; past it, the output-bias
    subscript runs off the end of that array.
  */
  function SlotOf(shape: Shape, i: int): (s: Slot)
    requires 0 <= i
    ensures ValidSlot(shape, s) <==> i < WeightCount(shape)
  {
    var first := shape.inputs * shape.hiddens;
    var second := first + shape.hiddens * shape.outputs;
    var third := second + shape.hiddens;
    if i < first then
      HiddenSubscripts(shape, i);
      HiddenWeight(i / shape.hiddens, i % shape.hiddens)
    else if i < second then
      OutputSubscripts(shape, i - first);
      OutputWeight((i - first) / shape.outputs, (i - first) % shape.outputs)
    else if i < third then
      HiddenBias(i - second)
    else
      OutputBias(i - third)
  }

  lemma HiddenSubscripts(shape: Shape, i: int)
    requires 0 <= i < shape.inputs * shape.hiddens
    ensures 0 < shape.hiddens && 0 <= i / shape.hiddens < shape.inputs && 0 <= i % shape.hiddens < shape.hiddens
  {
    var column, row := CellOf(i, shape.hiddens, shape.inputs);
  }

  lemma OutputSubscripts(shape: Shape, i: int)
    requires 0 <= i < shape.hiddens * shape.outputs
    ensures 0 < shape.outputs && 0 <= i / shape.outputs < shape.hiddens && 0 <= i % shape.outputs < shape.outputs
  {
    var column, row := CellOf(i, shape.outputs, shape.hiddens);
  }

  /** The index of the weight that lands in slot s: the inverse of SlotOf. */
  function PositionOf(shape: Shape, s: Slot): (i: int)
    requires ValidSlot(shape, s)
    ensures 0 <= i < WeightCount(shape)
  {
    var first := shape.inputs * shape.hiddens;
    var second := first + shape.hiddens * shape.outputs;
    var third := second + shape.hiddens;
    match s
    case HiddenWeight(c, r) =>
      InGridIntro(r, c, shape.hiddens, shape.inputs);
      Index(r, c, shape.hiddens)
    case OutputWeight(c, r) =>
      InGridIntro(r, c, shape.outputs, shape.hiddens);
      first + Index(r, c, shape.outputs)
    case HiddenBias(i) => second + i
    case OutputBias(i) => third + i
  }

  /** Each weight index below the count lands in one slot, and that slot's position is the index. */
  lemma SlotRoundTrip(shape: Shape, i: int)
    requires 0 <= i < WeightCount(shape)
    ensures PositionOf(shape, SlotOf(shape, i)) == i
  {
    var first := shape.inputs * shape.hiddens;
    if i < first {
      var column, row := CellOf(i, shape.hiddens, shape.inputs);
    } else if i < first + shape.hiddens * shape.outputs {
      var column, row := CellOf(i - first, shape.outputs, shape.hiddens);
    }
  }

  /** Each slot receives the weight at its position: no slot is written by two indices, none is missed. */
  lemma PositionRoundTrip(shape: Shape, s: Slot)
    requires ValidSlot(shape, s)
    ensures SlotOf(shape, PositionOf(shape, s)) == s
  {
    match s
    case HiddenWeight(c, r) => HiddenRoundTrip(shape, c, r);
    case OutputWeight(c, r) => OutputRoundTrip(shape, c, r);
    case HiddenBias(_) =>
    case OutputBias(_) =>
  }

  lemma HiddenRoundTrip(shape: Shape, c: int, r: int)
    requires ValidSlot(shape, HiddenWeight(c, r))
    ensures SlotOf(shape, PositionOf(shape, HiddenWeight(c, r))) == HiddenWeight(c, r)
  {
    var i := PositionOf(shape, HiddenWeight(c, r));
    InGridIntro(r, c, shape.hiddens, shape.inputs);
    assert i == Index(r, c, shape.hiddens);
    assert shape.hiddens * shape.inputs == shape.inputs * shape.hiddens;
    var column, row := CellOf(i, shape.hiddens, shape.inputs);
    IndexInjective(column, row, r, c, shape.hiddens, shape.inputs);
  }

  lemma OutputRoundTrip(shape: Shape, c: int, r: int)
    requires ValidSlot(shape, OutputWeight(c, r))
    ensures SlotOf(shape, PositionOf(shape, OutputWeight(c, r))) == OutputWeight(c, r)
  {
    var first := shape.inputs * shape.hiddens;
    var i := PositionOf(shape, OutputWeight(c, r)) - first;
    InGridIntro(r, c, shape.outputs, shape.hiddens);
    assert i == Index(r, c, shape.outputs);
    assert shape.outputs * shape.hiddens == shape.hiddens * shape.outputs;
    var column, row := CellOf(i, shape.outputs, shape.hiddens);
    IndexInjective(column, row, r, c, shape.outputs, shape.hiddens);
  }

  /** The four arrays the network layers are built from. */
  datatype Layers<W> = Layers(hiddenWeights: array2<W>, outputWeights: array2<W>, hiddenBias: array<W>, outputBias: array<W>)

  /** The arrays have the shape's sizes and are four separate arrays. */
  predicate Allocated<W>(shape: Shape, layers: Layers<W>)
  {
    layers.hiddenWeights != layers.outputWeights && layers.hiddenBias != layers.outputBias &&
    layers.hiddenWeights.Length0 == shape.inputs && layers.hiddenWeights.Length1 == shape.hiddens &&
    layers.outputWeights.Length0 == shape.hiddens && layers.outputWeights.Length1 == shape.outputs &&
    layers.hiddenBias.Length == shape.hiddens && layers.outputBias.Length == shape.outputs
  }

  /** The value the arrays hold at slot s. */
  function At<W>(shape: Shape, layers: Layers<W>, s: Slot): W
    reads layers.hiddenWeights, layers.outputWeights, layers.hiddenBias, layers.outputBias
    requires Allocated(shape, layers) && ValidSlot(shape, s)
  {
    match s
    case HiddenWeight(c, r) => layers.hiddenWeights[c, r]
    case OutputWeight(c, r) => layers.outputWeights[c, r]
    case HiddenBias(i) => layers.hiddenBias[i]
    case OutputBias(i) => layers.outputBias[i]
  }

  /** Weight i once the first `written` weights are stored, and the default before that. */
  function Stored<W>(weights: seq<W>, written: int, i: int, zero: W): W
    requires 0 <= written <= |weights|
  {
    if 0 <= i < written then weights[i] else zero
  }

  ghost predicate FilledUpTo<W>(shape: Shape, layers: Layers<W>, weights: seq<W>, written: int, zero: W)
    reads layers.hiddenWeights, layers.outputWeights, layers.hiddenBias, layers.outputBias
    requires 0 <= written <= |weights|
  {
    Allocated(shape, layers) &&
    forall s :: ValidSlot(shape, s) ==> At(shape, layers, s) == Stored(weights, written, PositionOf(shape, s), zero)
  }

  /**
    The network factory's weight loop (lines 30-61): fresh arrays in which
    every slot holds the weight at its position or, past the end of a short
    vector, the default; a vector longer than the weight count runs the
    output-bias subscript out of range. With the weight count the trainer is
    built with (line 252) every slot holds exactly the weight at its position.
  */
  method Unpack<W>(shape: Shape, weights: seq<W>, zero: W) returns (r: Result<Layers<W>>)
    ensures |weights| > WeightCount(shape) ==> r == Err(IndexOutOfRange)
    ensures |weights| <= WeightCount(shape) ==>
              r.Ok? && Allocated(shape, r.value) &&
              fresh(r.value.hiddenWeights) && fresh(r.value.outputWeights) && fresh(r.value.hiddenBias) && fresh(r.value.outputBias) &&
              FilledUpTo(shape, r.value, weights, |weights|, zero)
    ensures |weights| == WeightCount(shape) ==>
              r.Ok? && forall s :: ValidSlot(shape, s) ==> At(shape, r.value, s) == weights[PositionOf(shape, s)]
  {
    var inputNumber, hiddenNumber, outputNumber := shape.inputs, shape.hiddens, shape.outputs;
    var hiddenWeightsMatrix := new W[inputNumber, hiddenNumber]((_, _) => zero);
    var outputWeightsMatrix := new W[hiddenNumber, outputNumber]((_, _) => zero);
    var hiddenBiasWeightsMatrix := new W[hiddenNumber](_ => zero);
    var outputBiasWeightsMatrix := new W[outputNumber](_ => zero);
    var layers := Layers(hiddenWeightsMatrix, outputWeightsMatrix, hiddenBiasWeightsMatrix, outputBiasWeightsMatrix);
    for weightIndex := 0 to |weights|
      invariant weightIndex <= WeightCount(shape)
      invariant FilledUpTo(shape, layers, weights, weightIndex, zero)
    {
      var s := SlotOf(shape, weightIndex);
      if !ValidSlot(shape, s) {
        assert |weights| > WeightCount(shape);
        return Err(IndexOutOfRange);
      }
      Store(shape, layers, weights, weightIndex, zero);
    }
    r := Ok(layers);
  }

  /** One turn of the loop: weight `written` goes to its slot; every other slot keeps its value. */
  method Store<W>(shape: Shape, layers: Layers<W>, weights: seq<W>, written: int, zero: W)
    requires 0 <= written < |weights| && FilledUpTo(shape, layers, weights, written, zero)
    requires ValidSlot(shape, SlotOf(shape, written))
    modifies layers.hiddenWeights, layers.outputWeights, layers.hiddenBias, layers.outputBias
    ensures FilledUpTo(shape, layers, weights, written + 1, zero)
  {
    var slot := SlotOf(shape, written);
    Put(shape, layers, slot, weights[written]);
    forall t | ValidSlot(shape, t)
      ensures At(shape, layers, t) == Stored(weights, written + 1, PositionOf(shape, t), zero)
    {
      PositionRoundTrip(shape, t);
      if t == slot {
        SlotRoundTrip(shape, written);
      }
    }
  }

  /** The write in each branch of lines 37-59: only the slot's array cell changes. */
  method Put<W>(shape: Shape, layers: Layers<W>, s: Slot, w: W)
    requires Allocated(shape, layers) && ValidSlot(shape, s)
    modifies layers.hiddenWeights, layers.outputWeights, layers.hiddenBias, layers.outputBias
    ensures Allocated(shape, layers) && At(shape, layers, s) == w
    ensures forall t :: ValidSlot(shape, t) && t != s ==> At(shape, layers, t) == old(At(shape, layers, t))
  {
    match s
    case HiddenWeight(c, r) => SetHiddenWeight(shape, layers, c, r, w);
    case OutputWeight(c, r) => SetOutputWeight(shape, layers, c, r, w);
    case HiddenBias(_) => SetBias(shape, layers, s, w);
    case OutputBias(_) => SetBias(shape, layers, s, w);
  }

  method SetHiddenWeight<W>(shape: Shape, layers: Layers<W>, c: int, r: int, w: W)
    requires Allocated(shape, layers) && ValidSlot(shape, HiddenWeight(c, r))
    modifies layers.hiddenWeights
    ensures Allocated(shape, layers) && At(shape, layers, HiddenWeight(c, r)) == w
    ensures forall t :: ValidSlot(shape, t) && t != HiddenWeight(c, r) ==> At(shape, layers, t) == old(At(shape, layers, t))
  {
    layers.hiddenWeights[c, r] := w;
  }

  method SetOutputWeight<W>(shape: Shape, layers: Layers<W>, c: int, r: int, w: W)
    requires Allocated(shape, layers) && ValidSlot(shape, OutputWeight(c, r))
    modifies layers.outputWeights
    ensures Allocated(shape, layers) && At(shape, layers, OutputWeight(c, r)) == w
    ensures forall t :: ValidSlot(shape, t) && t != OutputWeight(c, r) ==> At(shape, layers, t) == old(At(shape, layers, t))
  {
    layers.outputWeights[c, r] := w;
  }

  method SetBias<W>(shape: Shape, layers: Layers<W>, s: Slot, w: W)
    requires Allocated(shape, layers)
    requires ValidSlot(shape, s) && (s.HiddenBias? || s.OutputBias?)
    modifies layers.hiddenBias, layers.outputBias
    ensures Allocated(shape, layers) && At(shape, layers, s) == w
    ensures forall t :: ValidSlot(shape, t) && t != s ==> At(shape, layers, t) == old(At(shape, layers, t))
  {
    if s.HiddenBias? {
      layers.hiddenBias[s.index] := w;
    } else {
      layers.outputBias[s.index] := w;
    }
  }
}
