/** The payload scrambler and the index obfuscation shared by the packer and the
    extractor (each source file carries its own identical copy): three strided
    byte passes over absolute positions, two orders to run them in, and the
    rule that picks the order. */
module ByteTransform {
  import opened Bytes

  // ---------------------------------------------------------------------------
  // Single-byte operations

  /** `nibble_swap_byte`: exchange the high and low four bits. */
  function NibbleSwapByte(b: byte): (r: byte)
    ensures r >> 4 == b & 0x0F
    ensures r & 0x0F == b >> 4
  {
    ((b & 0x0F) << 4) | ((b & 0xF0) >> 4)
  }

  lemma NibbleSwapByteInvolutive(b: byte)
    ensures NibbleSwapByte(NibbleSwapByte(b)) == b
  {
  }

  /** The byte read as a signed 8-bit integer. */
  function Signed(b: byte): (r: int)
    ensures -128 <= r < 128
  {
    if b < 0x80 then b as int else b as int - 256
  }

  /** Negation of the byte as a signed 8-bit value, kept to 8 bits: the
      additive inverse modulo 256. */
  function Negate(b: byte): (r: byte)
    ensures r + b == 0
  {
    0 - b
  }

  /** The source computes the negation as `(-signed) & 0xFF`; for these values
      that mask is the Euclidean remainder modulo 256, and it agrees with
      `Negate` on every byte, 0x80 included. */
  lemma NegateAsSigned(b: byte)
    ensures Negate(b) as int == (-Signed(b)) % 256
  {
    NegateValue(b);
    SignedValue(b);
    var v := b as int;
    if v == 0 {
    } else if v < 128 {
      assert (-v) % 256 == 256 - v;
    } else {
      assert (-(v - 256)) % 256 == 256 - v;
    }
  }

  lemma NegateValue(b: byte)
    ensures Negate(b) as int == if b as int == 0 then 0 else 256 - b as int
  {
  }

  lemma SignedValue(b: byte)
    ensures Signed(b) == if b as int < 128 then b as int else b as int - 256
  {
  }

  lemma NegateInvolutive(b: byte)
    ensures Negate(Negate(b)) == b
  {
  }

  /** The ten-byte key table `v12`. */
  const Key: seq<byte> := [0xFF, 0xFF, 0xFF, 0x01, 0x9C, 0xAA, 0xA5, 0x00, 0x30, 0xFF]

  /** Which key byte position j is XORed with. */
  function KeyIndex(j: nat): (r: nat)
    ensures r < |Key|
  {
    (j % 6) + ((j / 5) % 5)
  }

  // ---------------------------------------------------------------------------
  // Which absolute positions each pass reaches

  predicate NegatePos(p: nat) { p % 4 == 1 }
  predicate XorPos(p: nat) { p % 3 == 0 }
  predicate SwapPos(p: nat) { p % 6 == 2 }

  /** Positions reached by at least one pass. */
  predicate Touched(p: nat) { NegatePos(p) || XorPos(p) || SwapPos(p) }

  /** The nibble-swap pass never meets the other two. */
  lemma SwapMeetsNothing(p: nat)
    ensures !(SwapPos(p) && NegatePos(p))
    ensures !(SwapPos(p) && XorPos(p))
  {
  }

  /** The negate and XOR passes meet exactly at the positions that are 9
      modulo 12. */
  lemma NegateXorMeet(p: nat)
    ensures NegatePos(p) && XorPos(p) <==> p % 12 == 9
  {
  }

  // ---------------------------------------------------------------------------
  // The three passes, over the bytes of a buffer that starts at absolute
  // position a4

  /** What each pass does to the byte b at absolute position pos. */
  function NegateStep(pos: nat, b: byte): byte
  {
    if NegatePos(pos) then Negate(b) else b
  }

  function XorStep(pos: nat, b: byte): byte
  {
    if XorPos(pos) then b ^ Key[KeyIndex(pos)] else b
  }

  function SwapStep(pos: nat, b: byte): byte
  {
    if SwapPos(pos) then NibbleSwapByte(b) else b
  }

  /** A byte function of the absolute position applied to every byte of a
      buffer that starts at absolute position a4. */
  function AtEachPosition(f: (nat, byte) -> byte, s: seq<byte>, a4: nat): (r: seq<byte>)
    ensures |r| == |s|
  {
    seq(|s|, i requires 0 <= i < |s| => f(a4 + i, s[i]))
  }

  /** Applying g after f position by position is applying their composition. */
  lemma AtEachCompose(f: (nat, byte) -> byte, g: (nat, byte) -> byte, h: (nat, byte) -> byte, s: seq<byte>, a4: nat)
    requires forall pos, b :: h(pos, b) == g(pos, f(pos, b))
    ensures AtEachPosition(g, AtEachPosition(f, s, a4), a4) == AtEachPosition(h, s, a4)
  {
    var t := AtEachPosition(f, s, a4);
    forall i: nat | i < |s| ensures AtEachPosition(g, t, a4)[i] == AtEachPosition(h, s, a4)[i] {
      var pos, b := a4 + i, s[i];
      assert t[i] == f(pos, b);
      assert h(pos, b) == g(pos, f(pos, b));
    }
  }

  /** When g undoes f on every byte, it undoes f on every buffer. */
  lemma AtEachInverse(f: (nat, byte) -> byte, g: (nat, byte) -> byte, s: seq<byte>, a4: nat)
    requires forall pos, b :: g(pos, f(pos, b)) == b
    ensures AtEachPosition(g, AtEachPosition(f, s, a4), a4) == s
  {
    var t := AtEachPosition(f, s, a4);
    forall i | 0 <= i < |s| ensures AtEachPosition(g, t, a4)[i] == s[i] {
      assert t[i] == f(a4 + i, s[i]);
    }
  }

  /** The same at a single position. */
  lemma AtEachInverseAt(f: (nat, byte) -> byte, g: (nat, byte) -> byte, s: seq<byte>, a4: nat, p: nat)
    requires p < |s| && g(a4 + p, f(a4 + p, s[p])) == s[p]
    ensures AtEachPosition(g, AtEachPosition(f, s, a4), a4)[p] == s[p]
  {
    assert AtEachPosition(f, s, a4)[p] == f(a4 + p, s[p]);
  }

  function NegatePass(s: seq<byte>, a4: nat): (r: seq<byte>)
    ensures |r| == |s|
  {
    AtEachPosition(NegateStep, s, a4)
  }

  function XorPass(s: seq<byte>, a4: nat): (r: seq<byte>)
    ensures |r| == |s|
  {
    AtEachPosition(XorStep, s, a4)
  }

  function SwapPass(s: seq<byte>, a4: nat): (r: seq<byte>)
    ensures |r| == |s|
  {
    AtEachPosition(SwapStep, s, a4)
  }

  lemma NegatePassInvolutive(s: seq<byte>, a4: nat)
    ensures NegatePass(NegatePass(s, a4), a4) == s
  {
    forall pos, b ensures NegateStep(pos, NegateStep(pos, b)) == b {
      StepsInvolutive(pos, b);
    }
    AtEachInverse(NegateStep, NegateStep, s, a4);
  }

  lemma XorPassInvolutive(s: seq<byte>, a4: nat)
    ensures XorPass(XorPass(s, a4), a4) == s
  {
    forall pos, b ensures XorStep(pos, XorStep(pos, b)) == b {
      StepsInvolutive(pos, b);
    }
    AtEachInverse(XorStep, XorStep, s, a4);
  }

  lemma SwapPassInvolutive(s: seq<byte>, a4: nat)
    ensures SwapPass(SwapPass(s, a4), a4) == s
  {
    forall pos, b ensures SwapStep(pos, SwapStep(pos, b)) == b {
      StepsInvolutive(pos, b);
    }
    AtEachInverse(SwapStep, SwapStep, s, a4);
  }

  // ---------------------------------------------------------------------------
  // The two orders

  /** Negate, then XOR, then nibble swap, as they act on the byte at one
      absolute position. */
  function ForwardByte(pos: nat, b: byte): byte
  {
    SwapStep(pos, XorStep(pos, NegateStep(pos, b)))
  }

  /** Nibble swap, then XOR, then negate, at one absolute position. */
  function ReverseByte(pos: nat, b: byte): byte
  {
    NegateStep(pos, XorStep(pos, SwapStep(pos, b)))
  }

  /** The three passes in forward order: the decoder's mode 1 and the
      encoder's mode 2. */
  function ForwardOrder(s: seq<byte>, a4: nat): (r: seq<byte>)
    ensures |r| == |s|
  {
    AtEachPosition(ForwardByte, s, a4)
  }

  /** The three passes in reverse order: the decoder's mode 2 and the
      encoder's mode 1. */
  function ReverseOrder(s: seq<byte>, a4: nat): (r: seq<byte>)
    ensures |r| == |s|
  {
    AtEachPosition(ReverseByte, s, a4)
  }

  /** The orders are the three whole-buffer passes run one after another,
      which is how both routines execute them. */
  lemma OrdersArePasses(s: seq<byte>, a4: nat)
    ensures ForwardOrder(s, a4) == SwapPass(XorPass(NegatePass(s, a4), a4), a4)
    ensures ReverseOrder(s, a4) == NegatePass(XorPass(SwapPass(s, a4), a4), a4)
  {
    var nx := (pos: nat, b: byte) => XorStep(pos, NegateStep(pos, b));
    AtEachCompose(NegateStep, XorStep, nx, s, a4);
    AtEachCompose(nx, SwapStep, ForwardByte, s, a4);
    var sx := (pos: nat, b: byte) => XorStep(pos, SwapStep(pos, b));
    AtEachCompose(SwapStep, XorStep, sx, s, a4);
    AtEachCompose(sx, NegateStep, ReverseByte, s, a4);
  }

  /** Each step, applied twice at the same position, restores the byte. */
  lemma StepsInvolutive(pos: nat, b: byte)
    ensures NegateStep(pos, NegateStep(pos, b)) == b
    ensures XorStep(pos, XorStep(pos, b)) == b
    ensures SwapStep(pos, SwapStep(pos, b)) == b
  {
    NegateInvolutive(b);
    NibbleSwapByteInvolutive(b);
  }

  /** On one byte, each order undoes the other. */
  lemma ByteOrdersInverse(pos: nat, b: byte)
    ensures ReverseByte(pos, ForwardByte(pos, b)) == b
    ensures ForwardByte(pos, ReverseByte(pos, b)) == b
  {
    var n, x := NegateStep(pos, b), XorStep(pos, NegateStep(pos, b));
    StepsInvolutive(pos, SwapStep(pos, x));
    StepsInvolutive(pos, x);
    StepsInvolutive(pos, n);
    StepsInvolutive(pos, b);
    var w, y := SwapStep(pos, b), XorStep(pos, SwapStep(pos, b));
    StepsInvolutive(pos, NegateStep(pos, y));
    StepsInvolutive(pos, y);
    StepsInvolutive(pos, w);
  }

  /** Each order undoes the other, whatever the start offset. */
  lemma OrdersInverse(s: seq<byte>, a4: nat)
    ensures ReverseOrder(ForwardOrder(s, a4), a4) == s
    ensures ForwardOrder(ReverseOrder(s, a4), a4) == s
  {
    forall pos, b
      ensures ReverseByte(pos, ForwardByte(pos, b)) == b
      ensures ForwardByte(pos, ReverseByte(pos, b)) == b
    {
      ByteOrdersInverse(pos, b);
    }
    AtEachInverse(ForwardByte, ReverseByte, s, a4);
    AtEachInverse(ReverseByte, ForwardByte, s, a4);
  }

  /** Both orders keep the length and leave every position no pass reaches. */
  lemma OrdersTouchOnly(s: seq<byte>, a4: nat, p: nat)
    requires p < |s| && !Touched(a4 + p)
    ensures |ForwardOrder(s, a4)| == |s| && ForwardOrder(s, a4)[p] == s[p]
    ensures |ReverseOrder(s, a4)| == |s| && ReverseOrder(s, a4)[p] == s[p]
  {
  }

  /** At position 0 only the XOR pass acts, with key byte 0xFF: both orders
      invert the byte. */
  lemma FirstPositionBytes(b: byte)
    ensures ForwardByte(0, b) == b ^ 0xFF && ReverseByte(0, b) == b ^ 0xFF
  {
    FirstPositionXor(b);
    FirstPositionXor(b ^ 0xFF);
  }

  lemma FirstPositionXor(b: byte)
    ensures NegateStep(0, b) == b && SwapStep(0, b) == b && XorStep(0, b) == b ^ 0xFF
  {
    assert KeyIndex(0) == 0;
  }

  lemma OrdersFirstByte(s: seq<byte>)
    requires |s| > 0
    ensures ForwardOrder(s, 0)[0] == s[0] ^ 0xFF
    ensures ReverseOrder(s, 0)[0] == s[0] ^ 0xFF
  {
    FirstPositionBytes(s[0]);
  }

  /** Where the negate and XOR passes do not meet, at most one pass acts on
      a position, so the order they run in does not matter. */
  lemma ByteOrdersAgree(pos: nat, b: byte)
    requires pos % 12 != 9
    ensures ForwardByte(pos, b) == ReverseByte(pos, b)
  {
    SwapMeetsNothing(pos);
    NegateXorMeet(pos);
    if NegatePos(pos) {
      assert ForwardByte(pos, b) == Negate(b) == ReverseByte(pos, b);
    } else if XorPos(pos) {
      assert ForwardByte(pos, b) == b ^ Key[KeyIndex(pos)] == ReverseByte(pos, b);
    } else if SwapPos(pos) {
      assert ForwardByte(pos, b) == NibbleSwapByte(b) == ReverseByte(pos, b);
    } else {
      assert ForwardByte(pos, b) == b == ReverseByte(pos, b);
    }
  }

  /** Running one order twice therefore restores a byte wherever the negate
      and XOR passes do not meet. */
  lemma ByteOrderTwice(pos: nat, b: byte)
    requires pos % 12 != 9
    ensures ForwardByte(pos, ForwardByte(pos, b)) == b
    ensures ReverseByte(pos, ReverseByte(pos, b)) == b
  {
    ByteOrdersAgree(pos, ForwardByte(pos, b));
    ByteOrdersAgree(pos, ReverseByte(pos, b));
    ByteOrdersInverse(pos, b);
  }

  lemma OrderTwiceAt(s: seq<byte>, a4: nat, p: nat)
    requires p < |s| && (a4 + p) % 12 != 9
    ensures |ForwardOrder(ForwardOrder(s, a4), a4)| == |s|
    ensures ForwardOrder(ForwardOrder(s, a4), a4)[p] == s[p]
    ensures |ReverseOrder(ReverseOrder(s, a4), a4)| == |s|
    ensures ReverseOrder(ReverseOrder(s, a4), a4)[p] == s[p]
  {
    ByteOrderTwice(a4 + p, s[p]);
    AtEachInverseAt(ForwardByte, ForwardByte, s, a4, p);
    AtEachInverseAt(ReverseByte, ReverseByte, s, a4, p);
  }

  /** No absolute position in [a4, a4 + n) is reached by both the negate and
      the XOR pass. */
  ghost predicate NoMeetIn(a4: nat, n: nat)
  {
    forall p :: a4 <= p < a4 + n ==> !(NegatePos(p) && XorPos(p))
  }

  /** The first meeting position is 9. */
  lemma NoMeetBelowNine(n: nat)
    requires n <= 9
    ensures NoMeetIn(0, n)
  {
    forall p | 0 <= p < n ensures !(NegatePos(p) && XorPos(p)) {
      NegateXorMeet(p);
    }
  }

  /** Where the passes never meet, running one order twice is the identity. */
  lemma OrderTwice(s: seq<byte>, a4: nat)
    requires NoMeetIn(a4, |s|)
    ensures ForwardOrder(ForwardOrder(s, a4), a4) == s
    ensures ReverseOrder(ReverseOrder(s, a4), a4) == s
  {
    forall i | 0 <= i < |s|
      ensures ForwardOrder(ForwardOrder(s, a4), a4)[i] == s[i]
      ensures ReverseOrder(ReverseOrder(s, a4), a4)[i] == s[i]
    {
      assert !(NegatePos(a4 + i) && XorPos(a4 + i));
      NegateXorMeet(a4 + i);
      OrderTwiceAt(s, a4, i);
    }
  }

  /** At positions that are 9 modulo 12 both orders negate and XOR the byte,
      in opposite order. */
  lemma ByteOrdersAtOverlap(pos: nat, b: byte)
    requires NegatePos(pos) && XorPos(pos)
    ensures ForwardByte(pos, b) == Negate(b) ^ Key[KeyIndex(pos)]
    ensures ReverseByte(pos, b) == Negate(b ^ Key[KeyIndex(pos)])
  {
    SwapMeetsNothing(pos);
  }

  // ---------------------------------------------------------------------------
  // Mode selection

  datatype Mode = Mode1 | Mode2

  /** Both routines read `buf[0]` only when the start offset is 0, and pick
      mode 2 when it is below 0x80; an empty buffer at offset 0 is an
      IndexError. */
  function SelectMode(s: seq<byte>, a4: nat): (r: Result<Mode>)
    ensures r.Err? <==> a4 == 0 && |s| == 0
    ensures r.Err? ==> r.error == EmptyBuffer
    ensures r == Ok(Mode1) <==> a4 != 0 || (|s| > 0 && s[0] >= 0x80)
    ensures r == Ok(Mode2) <==> a4 == 0 && |s| > 0 && s[0] < 0x80
  {
    if a4 != 0 then Ok(Mode1)
    else if |s| == 0 then Err(EmptyBuffer)
    else if s[0] < 0x80 then Ok(Mode2)
    else Ok(Mode1)
  }

  // ---------------------------------------------------------------------------
  // The passes as the source runs them: strided loops over absolute positions
  // from the first multiple at or below a4, writing only positions >= a4

  /** Between two positions a strided loop visits, no position is reached
      by that loop's pass. */
  lemma NegateGap(i: nat, q: nat)
    requires i % 4 == 1 && i < q < i + 4
    ensures !NegatePos(q)
  {
  }

  lemma XorGap(j: nat, q: nat)
    requires j % 3 == 0 && j < q < j + 3
    ensures !XorPos(q)
  {
  }

  lemma SwapGap(k: nat, q: nat)
    requires k % 6 == 2 && k < q < k + 6
    ensures !SwapPos(q)
  {
  }

  /** The first position each loop visits is at most one stride past a4, and
      no position in between is reached by that loop's pass. */
  lemma NegateStart(a4: nat, q: nat)
    requires a4 <= q < 4 * (a4 / 4) + 1
    ensures !NegatePos(q)
  {
  }

  lemma SwapStart(a4: nat, q: nat)
    requires a4 <= q < 6 * (a4 / 6) + 2
    ensures !SwapPos(q)
  {
  }

  /** A pass carried out on the positions below lim only: the state of the
      buffer while a strided loop is at lim. */
  function PassBelow(f: (nat, byte) -> byte, s: seq<byte>, a4: nat, lim: nat): (r: seq<byte>)
    ensures |r| == |s|
  {
    seq(|s|, p requires 0 <= p < |s| => if a4 + p < lim then f(a4 + p, s[p]) else s[p])
  }

  /** Before the loop, nothing the pass changes lies below its first position. */
  lemma PassBelowStart(f: (nat, byte) -> byte, s: seq<byte>, a4: nat, lim: nat)
    requires forall q, b :: a4 <= q < lim ==> f(q, b) == b
    ensures PassBelow(f, s, a4, lim) == s
  {
    forall p: nat | p < |s|
      ensures PassBelow(f, s, a4, lim)[p] == s[p]
    {
      var pos, b := a4 + p, s[p];
      if pos < lim {
        assert f(pos, b) == b;
      }
    }
  }

  /** One step of the loop at a position inside the buffer: that byte is
      transformed and the positions up to the next visit are left alone. */
  lemma PassBelowWrite(f: (nat, byte) -> byte, s: seq<byte>, a4: nat, lim: nat, stride: nat)
    requires a4 <= lim < a4 + |s| && 0 < stride
    requires forall q, b :: lim < q < lim + stride ==> f(q, b) == b
    ensures PassBelow(f, s, a4, lim + stride)
         == PassBelow(f, s, a4, lim)[lim - a4 := f(lim, s[lim - a4])]
  {
    var r := PassBelow(f, s, a4, lim)[lim - a4 := f(lim, s[lim - a4])];
    forall p: nat | p < |s|
      ensures PassBelow(f, s, a4, lim + stride)[p] == r[p]
    {
      var pos, b := a4 + p, s[p];
      if lim < pos < lim + stride {
        assert f(pos, b) == b;
      }
    }
  }

  /** One step of the loop at a position before the buffer: nothing changes. */
  lemma PassBelowSkip(f: (nat, byte) -> byte, s: seq<byte>, a4: nat, lim: nat, stride: nat)
    requires lim < a4
    requires forall q, b :: lim < q < lim + stride ==> f(q, b) == b
    ensures PassBelow(f, s, a4, lim + stride) == PassBelow(f, s, a4, lim)
  {
    forall p: nat | p < |s|
      ensures PassBelow(f, s, a4, lim + stride)[p] == PassBelow(f, s, a4, lim)[p]
    {
      var pos, b := a4 + p, s[p];
      if pos < lim + stride {
        assert f(pos, b) == b;
      }
    }
  }

  /** Once the loop has passed the end of the buffer, the whole pass is done. */
  lemma PassBelowAll(f: (nat, byte) -> byte, s: seq<byte>, a4: nat, lim: nat)
    requires a4 + |s| <= lim
    ensures PassBelow(f, s, a4, lim) == AtEachPosition(f, s, a4)
  {
    forall p: nat | p < |s|
      ensures PassBelow(f, s, a4, lim)[p] == AtEachPosition(f, s, a4)[p]
    {
    }
  }

  /** A visit of the negation loop inside the buffer negates that byte and leaves
      the positions up to the next visit alone; before the buffer it does nothing. */
  lemma NegateAdvance(s: seq<byte>, a4: nat, i: nat)
    requires i % 4 == 1 && a4 <= i < a4 + |s|
    ensures PassBelow(NegateStep, s, a4, i)[i - a4] == s[i - a4]
    ensures PassBelow(NegateStep, s, a4, i + 4)
         == PassBelow(NegateStep, s, a4, i)[i - a4 := Negate(s[i - a4])]
  {
    forall q, b | i < q < i + 4 ensures NegateStep(q, b) == b {
      NegateGap(i, q);
    }
    PassBelowWrite(NegateStep, s, a4, i, 4);
  }

  lemma NegateSkip(s: seq<byte>, a4: nat, i: nat)
    requires i % 4 == 1 && i < a4
    ensures PassBelow(NegateStep, s, a4, i + 4) == PassBelow(NegateStep, s, a4, i)
  {
    forall q, b | i < q < i + 4 ensures NegateStep(q, b) == b {
      NegateGap(i, q);
    }
    PassBelowSkip(NegateStep, s, a4, i, 4);
  }

  /** One visit of the negation loop at absolute position i. */
  method NegateVisit(buf: array<byte>, a4: nat, i: nat, ghost s: seq<byte>)
    requires i % 4 == 1 && i < a4 + buf.Length
    requires buf[..] == PassBelow(NegateStep, s, a4, i)
    modifies buf
    ensures buf[..] == PassBelow(NegateStep, s, a4, i + 4)
  {
    if i >= a4 {
      NegateAdvance(s, a4, i);
      buf[i - a4] := Negate(buf[i - a4]);
    } else {
      NegateSkip(s, a4, i);
    }
  }

  /** The negation loop of `encode_buffer`/`decode_buffer`, in place. */
  method ApplyNegatePass(buf: array<byte>, a4: nat)
    modifies buf
    ensures buf[..] == NegatePass(old(buf[..]), a4)
  {
    ghost var s := buf[..];
    var end := a4 + buf.Length;
    var i := 4 * (a4 / 4) + 1;
    forall q, b | a4 <= q < i ensures NegateStep(q, b) == b {
      NegateStart(a4, q);
    }
    PassBelowStart(NegateStep, s, a4, i);
    while i < end
      invariant i % 4 == 1
      invariant buf[..] == PassBelow(NegateStep, s, a4, i)
      decreases end - i
    {
      NegateVisit(buf, a4, i, s);
      i := i + 4;
    }
    PassBelowAll(NegateStep, s, a4, i);
  }

  /** A visit of the key XOR loop inside the buffer XORs that byte with its key
      byte. */
  lemma XorAdvance(s: seq<byte>, a4: nat, j: nat)
    requires j % 3 == 0 && a4 <= j < a4 + |s|
    ensures PassBelow(XorStep, s, a4, j)[j - a4] == s[j - a4]
    ensures PassBelow(XorStep, s, a4, j + 3)
         == PassBelow(XorStep, s, a4, j)[j - a4 := s[j - a4] ^ Key[KeyIndex(j)]]
  {
    forall q, b | j < q < j + 3 ensures XorStep(q, b) == b {
      XorGap(j, q);
    }
    PassBelowWrite(XorStep, s, a4, j, 3);
  }

  lemma XorSkip(s: seq<byte>, a4: nat, j: nat)
    requires j % 3 == 0 && j < a4
    ensures PassBelow(XorStep, s, a4, j + 3) == PassBelow(XorStep, s, a4, j)
  {
    forall q, b | j < q < j + 3 ensures XorStep(q, b) == b {
      XorGap(j, q);
    }
    PassBelowSkip(XorStep, s, a4, j, 3);
  }

  /** One visit of the key XOR loop at absolute position j. */
  method XorVisit(buf: array<byte>, a4: nat, j: nat, ghost s: seq<byte>)
    requires j % 3 == 0 && j < a4 + buf.Length
    requires buf[..] == PassBelow(XorStep, s, a4, j)
    modifies buf
    ensures buf[..] == PassBelow(XorStep, s, a4, j + 3)
  {
    if j >= a4 {
      XorAdvance(s, a4, j);
      var idx := KeyIndex(j);
      buf[j - a4] := buf[j - a4] ^ Key[idx];
    } else {
      XorSkip(s, a4, j);
    }
  }

  /** The key XOR loop, in place. */
  method ApplyXorPass(buf: array<byte>, a4: nat)
    modifies buf
    ensures buf[..] == XorPass(old(buf[..]), a4)
  {
    ghost var s := buf[..];
    var end := a4 + buf.Length;
    var j := 3 * (a4 / 3);
    PassBelowStart(XorStep, s, a4, j);
    while j < end
      invariant j % 3 == 0
      invariant buf[..] == PassBelow(XorStep, s, a4, j)
      decreases end - j
    {
      XorVisit(buf, a4, j, s);
      j := j + 3;
    }
    PassBelowAll(XorStep, s, a4, j);
  }

  /** A visit of the nibble-swap loop inside the buffer swaps that byte's
      nibbles. */
  lemma SwapAdvance(s: seq<byte>, a4: nat, k: nat)
    requires k % 6 == 2 && a4 <= k < a4 + |s|
    ensures PassBelow(SwapStep, s, a4, k)[k - a4] == s[k - a4]
    ensures PassBelow(SwapStep, s, a4, k + 6)
         == PassBelow(SwapStep, s, a4, k)[k - a4 := NibbleSwapByte(s[k - a4])]
  {
    forall q, b | k < q < k + 6 ensures SwapStep(q, b) == b {
      SwapGap(k, q);
    }
    PassBelowWrite(SwapStep, s, a4, k, 6);
  }

  lemma SwapSkip(s: seq<byte>, a4: nat, k: nat)
    requires k % 6 == 2 && k < a4
    ensures PassBelow(SwapStep, s, a4, k + 6) == PassBelow(SwapStep, s, a4, k)
  {
    forall q, b | k < q < k + 6 ensures SwapStep(q, b) == b {
      SwapGap(k, q);
    }
    PassBelowSkip(SwapStep, s, a4, k, 6);
  }

  /** One visit of the nibble-swap loop at absolute position k; the source
      writes the swap inline, with the same expression as `nibble_swap_byte`. */
  method SwapVisit(buf: array<byte>, a4: nat, k: nat, ghost s: seq<byte>)
    requires k % 6 == 2 && k < a4 + buf.Length
    requires buf[..] == PassBelow(SwapStep, s, a4, k)
    modifies buf
    ensures buf[..] == PassBelow(SwapStep, s, a4, k + 6)
  {
    if k >= a4 {
      SwapAdvance(s, a4, k);
      buf[k - a4] := NibbleSwapByte(buf[k - a4]);
    } else {
      SwapSkip(s, a4, k);
    }
  }

  /** The nibble-swap loop, in place. */
  method ApplySwapPass(buf: array<byte>, a4: nat)
    modifies buf
    ensures buf[..] == SwapPass(old(buf[..]), a4)
  {
    ghost var s := buf[..];
    var end := a4 + buf.Length;
    var k := 6 * (a4 / 6) + 2;
    forall q, b | a4 <= q < k ensures SwapStep(q, b) == b {
      SwapStart(a4, q);
    }
    PassBelowStart(SwapStep, s, a4, k);
    while k < end
      invariant k % 6 == 2
      invariant buf[..] == PassBelow(SwapStep, s, a4, k)
      decreases end - k
    {
      SwapVisit(buf, a4, k, s);
      k := k + 6;
    }
    PassBelowAll(SwapStep, s, a4, k);
  }

  // ---------------------------------------------------------------------------
  // Index obfuscation

  /** `nibble_swap`: the byte-wise nibble swap of a whole buffer. */
  function NibbleSwap(data: seq<byte>): (r: seq<byte>)
    ensures |r| == |data|
  {
    seq(|data|, i requires 0 <= i < |data| => NibbleSwapByte(data[i]))
  }

  lemma NibbleSwapInvolutive(data: seq<byte>)
    ensures NibbleSwap(NibbleSwap(data)) == data
  {
    forall i | 0 <= i < |data| ensures NibbleSwap(NibbleSwap(data))[i] == data[i] {
      NibbleSwapByteInvolutive(data[i]);
    }
  }

  /** Swapping works byte by byte, so it commutes with slicing. */
  lemma NibbleSwapSlice(data: seq<byte>, lo: nat, hi: nat)
    requires lo <= hi <= |data|
    ensures NibbleSwap(data[lo..hi]) == NibbleSwap(data)[lo..hi]
  {
  }
}
