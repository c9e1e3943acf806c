/** WebSocket payload masking (websocketpp frame.hpp; section 5.3 of RFC 6455): the
    word-at-a-time routines against masking byte by byte. The machine is 64-bit and
    little-endian. */
module Masking {
  import opened Common

  type Word = bv64

  /** A masking key as its four bytes. */
  datatype Key = Key(c0: Octet, c1: Octet, c2: Octet, c3: Octet)

  function KeyByte(key: Key, i: nat): Octet {
    if i % 4 == 0 then key.c0 else if i % 4 == 1 then key.c1 else if i % 4 == 2 then key.c2 else key.c3
  }

  function Xor(a: Octet, b: Octet): Octet {
    a ^ b
  }

  /** RFC 6455: octet i is the exclusive or of the original with key octet i mod 4.
      The payload may start anywhere in a longer one. */
  function Mask(payload: seq<Octet>, key: Key, offset: nat): (r: seq<Octet>)
    ensures |r| == |payload|
  {
    seq(|payload|, i requires 0 <= i < |payload| => Xor(payload[i], KeyByte(key, offset + i)))
  }

  /** Zeros are masked into the key's four bytes, in order. */
  lemma ZerosShowKey(key: Key)
    ensures Mask([0, 0, 0, 0], key, 0) == [key.c0, key.c1, key.c2, key.c3]
  {
    XorZero(key.c0);
    XorZero(key.c1);
    XorZero(key.c2);
    XorZero(key.c3);
    hide Xor;
  }

  lemma XorZero(a: Octet)
    ensures Xor(0, a) == a
  {
  }

  // ---------------------------------------------------------------------
  // Words in memory
  // ---------------------------------------------------------------------

  /** w shifted right by a number of whole bytes. */
  function ShiftRight(w: Word, bytes: nat): Word
    requires bytes <= 7
  {
    match bytes
    case 0 => w
    case 1 => w >> 8
    case 2 => w >> 16
    case 3 => w >> 24
    case 4 => w >> 32
    case 5 => w >> 40
    case 6 => w >> 48
    case 7 => w >> 56
  }

  /** w shifted left by a number of whole bytes. */
  function ShiftLeft(w: Word, bytes: nat): Word
    requires bytes <= 7
  {
    match bytes
    case 0 => w
    case 1 => w << 8
    case 2 => w << 16
    case 3 => w << 24
    case 4 => w << 32
    case 5 => w << 40
    case 6 => w << 48
    case 7 => w << 56
  }

  /** Byte j of a word as it lies in memory. */
  function WordByte(w: Word, j: nat): Octet
    requires j < 8
  {
    (ShiftRight(w, j) & 0xFF) as Octet
  }

  /** The word made of eight bytes in memory. */
  function Load(b: seq<Octet>): Word
    requires |b| == 8
  {
    (b[0] as Word) | ((b[1] as Word) << 8) | ((b[2] as Word) << 16) | ((b[3] as Word) << 24)
    | ((b[4] as Word) << 32) | ((b[5] as Word) << 40) | ((b[6] as Word) << 48) | ((b[7] as Word) << 56)
  }

  lemma LoadBytes(b: seq<Octet>, j: nat)
    requires |b| == 8 && j < 8
    ensures WordByte(Load(b), j) == b[j]
  {
    match j
    case 0 =>
    case 1 =>
    case 2 =>
    case 3 =>
    case 4 =>
    case 5 =>
    case 6 =>
    case 7 =>
  }

  function XorWord(v: Word, w: Word): Word {
    v ^ w
  }

  /** Exclusive or of words is exclusive or of their bytes. */
  lemma XorBytes(v: Word, w: Word, j: nat)
    requires j < 8
    ensures WordByte(XorWord(v, w), j) == Xor(WordByte(v, j), WordByte(w, j))
  {
    match j
    case 0 =>
    case 1 =>
    case 2 =>
    case 3 =>
    case 4 =>
    case 5 =>
    case 6 =>
    case 7 =>
  }

  // ---------------------------------------------------------------------
  // Prepared keys
  // ---------------------------------------------------------------------

  /** The key's four bytes as an unsigned 32-bit integer. */
  function KeyWord(key: Key): bv32 {
    (key.c0 as bv32) | ((key.c1 as bv32) << 8) | ((key.c2 as bv32) << 16) | ((key.c3 as bv32) << 24)
  }

  function Twice(i: bv32): Word {
    ((i as Word) << 32) | (i as Word)
  }

  /** The key twice in one word. */
  function Prepare(key: Key): Word {
    Twice(KeyWord(key))
  }

  function Or(v: Word, w: Word): Word {
    v | w
  }

  /** A circular shift by whole bytes, as memory has them: byte 0 leaves first. */
  function CircShift(prepared: Word, offset: nat): Word
    requires offset < 8
  {
    if offset == 0 then prepared
    else Or(ShiftRight(prepared, offset), ShiftLeft(prepared, 8 - offset))
  }

  /** The word holds the key from the given payload position on. */
  ghost predicate Prepared(w: Word, key: Key, offset: nat) {
    forall j :: 0 <= j < 8 ==> WordByte(w, j) == KeyByte(key, offset + j)
  }

  /** Byte j of a 32-bit integer as it lies in memory. */
  function IntByte(i: bv32, j: nat): Octet
    requires j < 4
  {
    match j
    case 0 => (i & 0xFF) as Octet
    case 1 => ((i >> 8) & 0xFF) as Octet
    case 2 => ((i >> 16) & 0xFF) as Octet
    case 3 => ((i >> 24) & 0xFF) as Octet
  }

  lemma KeyWordBytes(key: Key, j: nat)
    requires j < 4
    ensures IntByte(KeyWord(key), j) == KeyByte(key, j)
  {
    match j
    case 0 =>
    case 1 =>
    case 2 =>
    case 3 =>
  }

  lemma TwiceBytes(i: bv32, j: nat)
    requires j < 8
    ensures WordByte(Twice(i), j) == IntByte(i, if j < 4 then j else j - 4)
  {
    match j
    case 0 =>
    case 1 =>
    case 2 =>
    case 3 =>
    case 4 =>
    case 5 =>
    case 6 =>
    case 7 =>
  }

  lemma KeyBytePeriod(key: Key, i: nat)
    ensures KeyByte(key, i + 4) == KeyByte(key, i)
  {
  }

  lemma {:induction false} KeyBytePeriods(key: Key, i: nat, k: nat)
    ensures KeyByte(key, i + 4 * k) == KeyByte(key, i)
  {
    hide KeyByte;
    if k > 0 {
      KeyBytePeriods(key, i, k - 1);
      KeyBytePeriod(key, i + 4 * (k - 1));
    }
  }

  lemma PreparedByte(key: Key, j: nat)
    requires j < 8
    ensures WordByte(Prepare(key), j) == KeyByte(key, j)
  {
    hide WordByte, KeyWord, IntByte, KeyByte, Twice;
    TwiceBytes(KeyWord(key), j);
    if j < 4 {
      KeyWordBytes(key, j);
    } else {
      KeyWordBytes(key, j - 4);
      KeyBytePeriod(key, j - 4);
    }
  }

  lemma PrepareIsPrepared(key: Key)
    ensures Prepared(Prepare(key), key, 0)
  {
    hide WordByte, Prepare, KeyByte;
    forall j | 0 <= j < 8
      ensures WordByte(Prepare(key), j) == KeyByte(key, 0 + j)
    {
      PreparedByte(key, j);
    }
  }

  lemma OrBytes(v: Word, w: Word, j: nat)
    requires j < 8
    ensures WordByte(v, j) == 0 ==> WordByte(Or(v, w), j) == WordByte(w, j)
    ensures WordByte(w, j) == 0 ==> WordByte(Or(v, w), j) == WordByte(v, j)
  {
    match j case 0 => case 1 => case 2 => case 3 => case 4 => case 5 => case 6 => case 7 =>
  }

  lemma RightShiftBytes(w: Word, n: nat, j: nat)
    requires n < 8 && j < 8
    ensures WordByte(ShiftRight(w, n), j) == if n + j < 8 then WordByte(w, n + j) else 0
  {
    match n
    case 0 => { match j case 0 => case 1 => case 2 => case 3 => case 4 => case 5 => case 6 => case 7 => }
    case 1 => { match j case 0 => case 1 => case 2 => case 3 => case 4 => case 5 => case 6 => case 7 => }
    case 2 => { match j case 0 => case 1 => case 2 => case 3 => case 4 => case 5 => case 6 => case 7 => }
    case 3 => { match j case 0 => case 1 => case 2 => case 3 => case 4 => case 5 => case 6 => case 7 => }
    case 4 => { match j case 0 => case 1 => case 2 => case 3 => case 4 => case 5 => case 6 => case 7 => }
    case 5 => { match j case 0 => case 1 => case 2 => case 3 => case 4 => case 5 => case 6 => case 7 => }
    case 6 => { match j case 0 => case 1 => case 2 => case 3 => case 4 => case 5 => case 6 => case 7 => }
    case 7 => { match j case 0 => case 1 => case 2 => case 3 => case 4 => case 5 => case 6 => case 7 => }
  }

  lemma LeftShiftBytes(w: Word, n: nat, j: nat)
    requires n < 8 && j < 8
    ensures WordByte(ShiftLeft(w, n), j) == if n <= j then WordByte(w, j - n) else 0
  {
    match n
    case 0 => { match j case 0 => case 1 => case 2 => case 3 => case 4 => case 5 => case 6 => case 7 => }
    case 1 => { match j case 0 => case 1 => case 2 => case 3 => case 4 => case 5 => case 6 => case 7 => }
    case 2 => { match j case 0 => case 1 => case 2 => case 3 => case 4 => case 5 => case 6 => case 7 => }
    case 3 => { match j case 0 => case 1 => case 2 => case 3 => case 4 => case 5 => case 6 => case 7 => }
    case 4 => { match j case 0 => case 1 => case 2 => case 3 => case 4 => case 5 => case 6 => case 7 => }
    case 5 => { match j case 0 => case 1 => case 2 => case 3 => case 4 => case 5 => case 6 => case 7 => }
    case 6 => { match j case 0 => case 1 => case 2 => case 3 => case 4 => case 5 => case 6 => case 7 => }
    case 7 => { match j case 0 => case 1 => case 2 => case 3 => case 4 => case 5 => case 6 => case 7 => }
  }

  lemma CircShiftBytes(w: Word, offset: nat, j: nat)
    requires offset < 8 && j < 8
    ensures WordByte(CircShift(w, offset), j) == WordByte(w, if offset + j < 8 then offset + j else offset + j - 8)
  {
    hide WordByte, ShiftRight, ShiftLeft, Or;
    if offset > 0 {
      var right, left := ShiftRight(w, offset), ShiftLeft(w, 8 - offset);
      OrBytes(right, left, j);
      RightShiftBytes(w, offset, j);
      LeftShiftBytes(w, 8 - offset, j);
    }
  }

  lemma KeyByteModEight(key: Key, offset: nat, i: nat)
    ensures KeyByte(key, offset + i % 8) == KeyByte(key, offset + i)
  {
    hide KeyByte;
    KeyBytePeriods(key, offset + i % 8, 2 * (i / 8));
  }

  lemma CircShiftAdvances(w: Word, key: Key, offset: nat, n: nat)
    requires Prepared(w, key, offset) && n < 8
    ensures Prepared(CircShift(w, n), key, offset + n)
  {
    hide WordByte, CircShift, KeyByte;
    forall j | 0 <= j < 8
      ensures WordByte(CircShift(w, n), j) == KeyByte(key, offset + n + j)
    {
      CircShiftBytes(w, n, j);
      KeyByteModEight(key, offset, j + n);
    }
  }

  // ---------------------------------------------------------------------
  // What the streaming routines compute
  // ---------------------------------------------------------------------

  /** Masking with a prepared word, byte i with the word's byte i mod 8. */
  function WordMask(payload: seq<Octet>, prepared: Word): (r: seq<Octet>)
    ensures |r| == |payload|
  {
    seq(|payload|, i requires 0 <= i < |payload| => Xor(payload[i], WordByte(prepared, i % 8)))
  }

  /** With a key prepared for its position, a chunk is masked as the standard says,
      and the word handed back is prepared for the chunk after it. */
  lemma ChunkIsMasked(payload: seq<Octet>, prepared: Word, key: Key, offset: nat)
    requires Prepared(prepared, key, offset)
    ensures WordMask(payload, prepared) == Mask(payload, key, offset)
    ensures Prepared(CircShift(prepared, |payload| % 8), key, offset + |payload|)
  {
    hide WordByte, KeyByte, CircShift, Xor;
    forall i | 0 <= i < |payload|
      ensures WordMask(payload, prepared)[i] == Mask(payload, key, offset)[i]
    {
      KeyByteModEight(key, offset, i);
    }
    CircShiftAdvances(prepared, key, offset, |payload| % 8);
    forall j | 0 <= j < 8
      ensures WordByte(CircShift(prepared, |payload| % 8), j) == KeyByte(key, offset + |payload| + j)
    {
      KeyByteShift(key, offset, |payload|, j);
    }
  }

  lemma KeyByteShift(key: Key, offset: nat, n: nat, j: nat)
    ensures KeyByte(key, offset + n % 8 + j) == KeyByte(key, offset + n + j)
  {
    hide KeyByte;
    KeyBytePeriods(key, offset + n % 8 + j, 2 * (n / 8));
  }

  function Flatten(chunks: seq<seq<Octet>>): seq<Octet> {
    if chunks == [] then [] else chunks[0] + Flatten(chunks[1..])
  }

  /** Masking chunk after chunk, feeding the returned key forward. */
  function MaskChunks(chunks: seq<seq<Octet>>, prepared: Word): seq<Octet> {
    if chunks == [] then []
    else WordMask(chunks[0], prepared) + MaskChunks(chunks[1..], CircShift(prepared, |chunks[0]| % 8))
  }

  /** However a payload is cut, masking the chunks masks the payload. */
  lemma {:induction false} MaskChunksIsMask(chunks: seq<seq<Octet>>, prepared: Word, key: Key, offset: nat)
    requires Prepared(prepared, key, offset)
    ensures MaskChunks(chunks, prepared) == Mask(Flatten(chunks), key, offset)
  {
    hide WordByte, KeyByte, CircShift, Prepared, WordMask;
    if chunks != [] {
      ChunkIsMasked(chunks[0], prepared, key, offset);
      MaskChunksIsMask(chunks[1..], CircShift(prepared, |chunks[0]| % 8), key, offset + |chunks[0]|);
    }
  }

  /** From the start of a message: any split, starting from the prepared key. */
  lemma StreamedMask(chunks: seq<seq<Octet>>, key: Key)
    ensures MaskChunks(chunks, Prepare(key)) == Mask(Flatten(chunks), key, 0)
  {
    hide *;
    PrepareIsPrepared(key);
    MaskChunksIsMask(chunks, Prepare(key), key, 0);
  }

  /** Masking twice restores the payload. */
  lemma MaskTwice(payload: seq<Octet>, key: Key, offset: nat)
    ensures Mask(Mask(payload, key, offset), key, offset) == payload
  {
    hide KeyByte, Xor;
    forall i | 0 <= i < |payload|
      ensures Mask(Mask(payload, key, offset), key, offset)[i] == payload[i]
    {
      XorTwice(payload[i], KeyByte(key, offset + i));
    }
  }

  lemma XorTwice(b: Octet, k: Octet)
    ensures Xor(Xor(b, k), k) == b
  {
  }

  // ---------------------------------------------------------------------
  // The loops
  // ---------------------------------------------------------------------

  /** The position in the key that goes with a position in the payload. */
  function KeyIndex(i: nat): nat {
    i % 4
  }

  /** byte_mask, over separate buffers or in place. */
  method ByteMask(input: array<Octet>, output: array<Octet>, length: nat, key: Key, offset: nat)
    requires length <= input.Length && length <= output.Length
    modifies output
    ensures output[..length] == Mask(old(input[..length]), key, offset)
    ensures output[length..] == old(output[length..])
  {
    hide KeyByte, Xor, KeyIndex;
    var keyIndex := KeyIndex(offset);
    var i := 0;
    while i < length
      invariant i <= length && keyIndex == KeyIndex(offset + i)
      invariant forall k :: 0 <= k < i ==> output[k] == Xor(old(input[k]), KeyByte(key, offset + k))
      invariant forall k :: i <= k < input.Length ==> input[k] == old(input[k])
      invariant forall k :: length <= k < output.Length ==> output[k] == old(output[k])
    {
      KeyByteMod(key, offset + i);
      NextKeyIndex(offset + i);
      output[i] := Xor(input[i], KeyByte(key, keyIndex));
      keyIndex := KeyIndex(keyIndex + 1);
      i := i + 1;
    }
  }

  lemma KeyByteMod(key: Key, i: nat)
    ensures KeyByte(key, KeyIndex(i)) == KeyByte(key, i)
  {
  }

  lemma NextKeyIndex(i: nat)
    ensures KeyIndex(KeyIndex(i) + 1) == KeyIndex(i + 1)
  {
  }

  method StoreWord(a: array<Octet>, p: nat, w: Word)
    requires p + 8 <= a.Length
    modifies a
    ensures forall k :: p <= k < p + 8 ==> a[k] == WordByte(w, k - p)
    ensures forall k :: 0 <= k < a.Length && !(p <= k < p + 8) ==> a[k] == old(a[k])
  {
    hide WordByte;
    a[p + 0] := WordByte(w, 0);
    a[p + 1] := WordByte(w, 1);
    a[p + 2] := WordByte(w, 2);
    a[p + 3] := WordByte(w, 3);
    a[p + 4] := WordByte(w, 4);
    a[p + 5] := WordByte(w, 5);
    a[p + 6] := WordByte(w, 6);
    a[p + 7] := WordByte(w, 7);
  }

  /** One word of payload: load, exclusive or, store. */
  method MaskWord(input: array<Octet>, output: array<Octet>, p: nat, prepared: Word)
    requires p + 8 <= input.Length && p + 8 <= output.Length
    modifies output
    ensures forall k :: p <= k < p + 8 ==> output[k] == Xor(old(input[k]), WordByte(prepared, k - p))
    ensures forall k :: 0 <= k < output.Length && !(p <= k < p + 8) ==> output[k] == old(output[k])
  {
    hide WordByte, Load, Xor, XorWord;
    ghost var bytes := input[p..p + 8];
    var word := Load(input[p..p + 8]);
    StoreWord(output, p, XorWord(word, prepared));
    forall k | p <= k < p + 8
      ensures output[k] == Xor(old(input[k]), WordByte(prepared, k - p))
    {
      LoadBytes(bytes, k - p);
      XorBytes(word, prepared, k - p);
    }
  }

  /** The whole words of a payload. */
  method MaskWords(input: array<Octet>, output: array<Octet>, n: nat, prepared: Word)
    requires 8 * n <= input.Length && 8 * n <= output.Length
    modifies output
    ensures forall k :: 0 <= k < 8 * n ==> output[k] == Xor(old(input[k]), WordByte(prepared, k % 8))
    ensures forall k :: 8 * n <= k < output.Length ==> output[k] == old(output[k])
  {
    hide WordByte, Xor;
    var i := 0;
    while i < n
      invariant i <= n
      invariant forall k :: 0 <= k < 8 * i ==> output[k] == Xor(old(input[k]), WordByte(prepared, k % 8))
      invariant forall k :: 8 * i <= k < input.Length ==> input[k] == old(input[k])
      invariant forall k :: 8 * i <= k < output.Length ==> output[k] == old(output[k])
    {
      MaskWord(input, output, 8 * i, prepared);
      i := i + 1;
    }
  }

  /** word_mask_circ: whole words, then the bytes left over; hands back the word
      shifted to account for the length. */
  method WordMaskCirc(input: array<Octet>, output: array<Octet>, length: nat, prepared: Word) returns (next: Word)
    requires length <= input.Length && length <= output.Length
    modifies output
    ensures output[..length] == WordMask(old(input[..length]), prepared)
    ensures output[length..] == old(output[length..])
    ensures next == CircShift(prepared, length % 8)
  {
    hide WordByte, Xor, CircShift;
    var n := length / 8;
    var l := length - 8 * n;
    MaskWords(input, output, n, prepared);
    var start := length - l;
    var i := 0;
    while i < l
      invariant i <= l
      invariant forall k :: 0 <= k < start + i ==> output[k] == Xor(old(input[k]), WordByte(prepared, k % 8))
      invariant forall k :: start + i <= k < input.Length ==> input[k] == old(input[k])
      invariant forall k :: start + i <= k < output.Length ==> output[k] == old(output[k])
    {
      output[start + i] := Xor(input[start + i], WordByte(prepared, i));
      i := i + 1;
    }
    next := CircShift(prepared, l);
  }

  /** word_mask_exact: words with the prepared key, the rest with the key itself. */
  method WordMaskExact(input: array<Octet>, output: array<Octet>, length: nat, key: Key)
    requires length <= input.Length && length <= output.Length
    modifies output
    ensures output[..length] == Mask(old(input[..length]), key, 0)
    ensures output[length..] == old(output[length..])
  {
    hide WordByte, Xor, Prepare, KeyByte;
    var prepared := Prepare(key);
    var n := length / 8;
    MaskWords(input, output, n, prepared);
    forall k | 0 <= k < 8 * n
      ensures output[k] == Xor(old(input[k]), KeyByte(key, k))
    {
      PreparedByte(key, k % 8);
      KeyByteModEight(key, 0, k);
    }
    var i := 8 * n;
    while i < length
      invariant 8 * n <= i <= length
      invariant forall k :: 0 <= k < i ==> output[k] == Xor(old(input[k]), KeyByte(key, k))
      invariant forall k :: i <= k < input.Length ==> input[k] == old(input[k])
      invariant forall k :: length <= k < output.Length ==> output[k] == old(output[k])
    {
      KeyByteMod(key, i);
      output[i] := Xor(input[i], KeyByte(key, i % 4));
      i := i + 1;
    }
  }

  /** byte_mask_circ: the low half of the prepared word serves as the key. */
  method ByteMaskCirc(input: array<Octet>, output: array<Octet>, length: nat, prepared: Word) returns (next: Word)
    requires length <= input.Length && length <= output.Length
    modifies output
    ensures forall key: Key, offset: nat :: Prepared(prepared, key, offset) ==>
              && output[..length] == Mask(old(input[..length]), key, offset)
              && Prepared(next, key, offset + length)
    ensures output[length..] == old(output[length..])
  {
    hide WordByte, Xor, CircShift, KeyByte;
    var i := 0;
    while i < length
      invariant i <= length
      invariant forall k :: 0 <= k < i ==> output[k] == Xor(old(input[k]), WordByte(prepared, k % 4))
      invariant forall k :: i <= k < input.Length ==> input[k] == old(input[k])
      invariant forall k :: length <= k < output.Length ==> output[k] == old(output[k])
    {
      output[i] := Xor(input[i], WordByte(prepared, i % 4));
      i := i + 1;
    }
    next := CircShift(prepared, length % 4);
    forall key: Key, offset: nat | Prepared(prepared, key, offset)
      ensures output[..length] == Mask(old(input[..length]), key, offset)
      ensures Prepared(next, key, offset + length)
    {
      forall k | 0 <= k < length
        ensures WordByte(prepared, k % 4) == KeyByte(key, offset + k)
      {
        KeyByteModFour(key, offset, k, 0);
      }
      CircShiftAdvances(prepared, key, offset, length % 4);
      forall j | 0 <= j < 8
        ensures WordByte(next, j) == KeyByte(key, offset + length + j)
      {
        KeyByteModFour(key, offset, length, j);
      }
    }
  }

  lemma KeyByteModFour(key: Key, offset: nat, n: nat, j: nat)
    ensures KeyByte(key, offset + n % 4 + j) == KeyByte(key, offset + n + j)
  {
    hide KeyByte;
    KeyBytePeriods(key, offset + n % 4 + j, n / 4);
  }
}
