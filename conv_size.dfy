/**
  `conv_output_size(input_size, kernel_size, padding_size, stride)`: the
  spatial size a convolution produces, `(in + 2 * pad - k) // stride + 1`,
  per dimension, on numpy integer arrays.
*/
module ConvSize {

  /**
    numpy's integer `//`: the quotient rounded toward negative infinity; an
    integer division by zero yields 0 (numpy only warns).
  */
  function FloorDiv(a: int, b: int): (q: int)
    ensures b > 0 ==> q * b <= a < q * b + b
    ensures b < 0 ==> q * b >= a > q * b + b
    ensures b == 0 ==> q == 0
  {
    if b > 0 then a / b
    else if b < 0 then (-a) / (-b)
    else 0
  }

  /**
    The output size along one dimension. With a positive stride it counts the
    window positions: the last window starts at `(out - 1) * stride` and fits
    in the padded input, and one more stride would overrun it. A negative
    stride mirrors that, and a zero stride (numpy's integer division by zero)
    gives 1.
  */
  function ConvOutputDim(input: int, kernel: int, padding: int, stride: int): (out: int)
    ensures stride > 0 ==> (out - 1) * stride + kernel <= input + 2 * padding < out * stride + kernel
    ensures stride < 0 ==> (out - 1) * stride + kernel >= input + 2 * padding > out * stride + kernel
    ensures stride == 0 ==> out == 1
  {
    var q := FloorDiv(input + 2 * padding - kernel, stride);
    assert (q + 1) * stride == q * stride + stride;
    q + 1
  }

  /** With a positive stride, `a * stride < b * stride` orders `a` below `b`. */
  lemma StrideCancels(a: int, b: int, stride: int)
    requires stride > 0 && a * stride < b * stride
    ensures a < b
  {
  }

  /** A kernel that fits in the padded input gives at least one output. */
  lemma ConvOutputDimPositive(input: int, kernel: int, padding: int, stride: int)
    requires stride > 0 && kernel <= input + 2 * padding
    ensures ConvOutputDim(input, kernel, padding, stride) >= 1
  {
    var out := ConvOutputDim(input, kernel, padding, stride);
    assert 0 * stride < out * stride;
    StrideCancels(0, out, stride);
  }

  /** The window property determines the output size: no other count has it. */
  lemma ConvOutputDimUnique(input: int, kernel: int, padding: int, stride: int, out: int)
    requires stride > 0
    requires (out - 1) * stride + kernel <= input + 2 * padding < out * stride + kernel
    ensures out == ConvOutputDim(input, kernel, padding, stride)
  {
    var d := ConvOutputDim(input, kernel, padding, stride);
    StrideCancels(out - 1, d, stride);
    StrideCancels(d - 1, out, stride);
  }

  /**
    numpy's broadcast of two one-dimensional lengths: a length of 1 stretches
    to the other; any other pair must agree (see `Compatible`).
  */
  function BroadcastLen(a: nat, b: nat): nat {
    if a == 1 then b else a
  }

  /** The length of the broadcast result of the four arguments. */
  function Dims(input: seq<int>, kernel: seq<int>, padding: seq<int>, stride: seq<int>): nat {
    BroadcastLen(BroadcastLen(BroadcastLen(|input|, |kernel|), |padding|), |stride|)
  }

  /** A sequence argument that numpy broadcasts against `n` positions. */
  predicate Broadcasts(s: seq<int>, n: nat) {
    |s| == 1 || |s| == n
  }

  /** The four arguments broadcast together; otherwise numpy raises an error. */
  predicate Compatible(input: seq<int>, kernel: seq<int>, padding: seq<int>, stride: seq<int>) {
    var n := Dims(input, kernel, padding, stride);
    Broadcasts(input, n) && Broadcasts(kernel, n) && Broadcasts(padding, n) && Broadcasts(stride, n)
  }

  /** Element `i` after broadcasting. */
  function At(s: seq<int>, i: nat): int
    requires |s| == 1 || i < |s|
  {
    if |s| == 1 then s[0] else s[i]
  }

  /**
    `conv_output_size`: one output size per position of the broadcast
    arguments, computed by the one-dimensional rule.
  */
  function ConvOutputSize(input: seq<int>, kernel: seq<int>, padding: seq<int>, stride: seq<int>): (out: seq<int>)
    requires Compatible(input, kernel, padding, stride)
    ensures |out| == Dims(input, kernel, padding, stride)
    ensures forall i | 0 <= i < |out| && At(stride, i) > 0 ::
      (out[i] - 1) * At(stride, i) + At(kernel, i) <= At(input, i) + 2 * At(padding, i)
      < out[i] * At(stride, i) + At(kernel, i)
    ensures forall i | 0 <= i < |out| && At(stride, i) == 0 :: out[i] == 1
  {
    var n := Dims(input, kernel, padding, stride);
    seq(n, i requires 0 <= i < n =>
      ConvOutputDim(At(input, i), At(kernel, i), At(padding, i), At(stride, i)))
  }

  /**
    An empty `input_size` broadcasts against length-1 kernel, padding and
    stride, and the result is empty; arguments of lengths 2 and 3 do not
    broadcast.
  */
  lemma BroadcastExamples()
    ensures Compatible([], [3], [1], [1]) && ConvOutputSize([], [3], [1], [1]) == []
    ensures Compatible([28, 28], [5], [2], [1])
    ensures ConvOutputSize([28, 28], [5], [2], [1]) == [28, 28]
    ensures !Compatible([28, 28], [5, 5, 5], [0], [1])
  {
    var out := ConvOutputSize([28, 28], [5], [2], [1]);
    assert out[0] == ConvOutputDim(28, 5, 2, 1);
    assert out[1] == ConvOutputDim(28, 5, 2, 1);
  }
}
