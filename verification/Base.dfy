/** Types and byte-level helpers shared by every module of the model. */
module Base {

  type byte = b: int | 0 <= b < 256
  type Bytes = seq<byte>

  datatype Option<+T> = None | Some(value: T)

  /** The crate's `Result`; error texts carry no functional content and are dropped. */
  datatype Result<+T> = Ok(value: T) | Err {
    predicate IsFailure() { Err? }
    function PropagateFailure<U>(): Result<U> requires Err? { Err }
    function Extract(): T requires Ok? { value }
  }

  const TWO_32: int := 0x1_0000_0000
  const TWO_64: int := 0x1_0000_0000_0000_0000

  function Min(a: int, b: int): int { if a <= b then a else b }

  function Max(a: int, b: int): int { if a <= b then b else a }

  function Pow2(n: nat): (r: nat)
    ensures r > 0
  { if n == 0 then 1 else 2 * Pow2(n - 1) }

  lemma Regroup<T>(a: seq<T>, b: seq<T>, c: seq<T>, d: seq<T>)
    ensures a + (b + c + d) == a + b + c + d && a + (b + c) == a + b + c
  {}

  /** `piece` occupies `data` from position `pos` on. */
  predicate At(data: Bytes, pos: nat, piece: Bytes) {
    pos + |piece| <= |data| && data[pos..pos + |piece|] == piece
  }

  lemma AtSplit(data: Bytes, pos: nat, a: Bytes, b: Bytes)
    ensures At(data, pos, a + b) <==> At(data, pos, a) && At(data, pos + |a|, b)
  {
    if At(data, pos, a + b) {
      assert a == (a + b)[..|a|] == data[pos..pos + |a + b|][..|a|] == data[pos..pos + |a|];
      assert b == (a + b)[|a|..] == data[pos..pos + |a + b|][|a|..];
    }
    if At(data, pos, a) && At(data, pos + |a|, b) {
      assert data[pos..pos + |a + b|] == data[pos..pos + |a|] + data[pos + |a|..pos + |a| + |b|];
    }
  }

  // --------------------------------------------------------- big-endian words

  function U16Bytes(n: nat): (r: Bytes)
    ensures |r| == 2
  { [n / 0x100 % 0x100, n % 0x100] }

  function U32Bytes(n: nat): (r: Bytes)
    ensures |r| == 4
  { U16Bytes(n / 0x1_0000) + U16Bytes(n) }

  function U64Bytes(n: nat): (r: Bytes)
    ensures |r| == 8
  { U32Bytes(n / TWO_32) + U32Bytes(n % TWO_32) }

  function U16At(data: Bytes, pos: nat): (r: nat)
    requires pos + 2 <= |data|
    ensures r < 0x1_0000
  { data[pos] as int * 0x100 + data[pos + 1] }

  function U32At(data: Bytes, pos: nat): (r: nat)
    requires pos + 4 <= |data|
    ensures r < TWO_32
  { U16At(data, pos) * 0x1_0000 + U16At(data, pos + 2) }

  function U64At(data: Bytes, pos: nat): (r: nat)
    requires pos + 8 <= |data|
    ensures r < TWO_64
  { U32At(data, pos) * TWO_32 + U32At(data, pos + 4) }

  /** Words are stored with their most significant byte first. */
  lemma BigEndian(data: Bytes, pos: nat)
    ensures pos + 2 <= |data| ==> U16At(data, pos) == data[pos] as int * 0x100 + data[pos + 1]
    ensures pos + 4 <= |data| ==>
      U32At(data, pos) ==
        data[pos] as int * 0x100_0000 + data[pos + 1] as int * 0x1_0000 + data[pos + 2] as int * 0x100 + data[pos + 3]
    ensures pos + 8 <= |data| ==> U64At(data, pos) == U32At(data, pos) * 0x1_0000_0000 + U32At(data, pos + 4)
  {}

  lemma U16RoundTrip(data: Bytes, pos: nat, n: nat)
    requires At(data, pos, U16Bytes(n))
    ensures U16At(data, pos) == n % 0x1_0000
  {
    var b := data[pos..pos + 2];
    assert b[0] == data[pos] && b[1] == data[pos + 1];
  }

  lemma U32RoundTrip(data: Bytes, pos: nat, n: nat)
    requires At(data, pos, U32Bytes(n)) && n < TWO_32
    ensures U32At(data, pos) == n
  {
    AtSplit(data, pos, U16Bytes(n / 0x1_0000), U16Bytes(n));
    U16RoundTrip(data, pos, n / 0x1_0000);
    U16RoundTrip(data, pos + 2, n);
  }

  lemma U64RoundTrip(data: Bytes, pos: nat, n: nat)
    requires At(data, pos, U64Bytes(n)) && n < TWO_64
    ensures U64At(data, pos) == n
  {
    AtSplit(data, pos, U32Bytes(n / TWO_32), U32Bytes(n % TWO_32));
    U32RoundTrip(data, pos, n / TWO_32);
    U32RoundTrip(data, pos + 4, n % TWO_32);
  }
}
