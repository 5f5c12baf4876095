/** One AES round as the x86 instructions order it, and the cipher and inverse cipher built from it. */
module Aes {
  import opened Gf256
  import opened AesTables

  type Block = s: seq<Byte> | |s| == 16 witness seq(16, _ => ZERO)

  // ---- the constants of MixColumns ----

  const C2 := Byte(false, false, false, false, false, false, true, false)
  const C3 := Byte(false, false, false, false, false, false, true, true)
  const C9 := Byte(false, false, false, false, true, false, false, true)
  const C11 := Byte(false, false, false, false, true, false, true, true)
  const C13 := Byte(false, false, false, false, true, true, false, true)
  const C14 := Byte(false, false, false, false, true, true, true, false)

  function Sum4(a: Byte, b: Byte, c: Byte, d: Byte): Byte { Xor(Xor(a, b), Xor(c, d)) }

  /** The byte of a mixed column whose own row holds a, the rows below it b, c and d, going round. */
  function Mixed(a: Byte, b: Byte, c: Byte, d: Byte): Byte { Sum4(GfMul(a, C2), GfMul(b, C3), c, d) }
  function Unmixed(a: Byte, b: Byte, c: Byte, d: Byte): Byte {
    Sum4(GfMul(a, C14), GfMul(b, C11), GfMul(c, C13), GfMul(d, C9))
  }

  lemma Sum4Linear(a: Byte, b: Byte, c: Byte, d: Byte, a': Byte, b': Byte, c': Byte, d': Byte)
    ensures Sum4(Xor(a, a'), Xor(b, b'), Xor(c, c'), Xor(d, d')) == Xor(Sum4(a, b, c, d), Sum4(a', b', c', d'))
  {
    XorSwap(a, a', b, b');
    XorSwap(c, c', d, d');
    XorSwap(Xor(a, b), Xor(a', b'), Xor(c, d), Xor(c', d'));
  }

  lemma MixedLinear(a: Byte, b: Byte, c: Byte, d: Byte, a': Byte, b': Byte, c': Byte, d': Byte)
    ensures Mixed(Xor(a, a'), Xor(b, b'), Xor(c, c'), Xor(d, d')) == Xor(Mixed(a, b, c, d), Mixed(a', b', c', d'))
  {
    GfMulLinear(a, C2, a'); GfMulLinear(b, C3, b');
    Sum4Linear(GfMul(a, C2), GfMul(b, C3), c, d, GfMul(a', C2), GfMul(b', C3), c', d');
  }

  lemma UnmixedLinear(a: Byte, b: Byte, c: Byte, d: Byte, a': Byte, b': Byte, c': Byte, d': Byte)
    ensures Unmixed(Xor(a, a'), Xor(b, b'), Xor(c, c'), Xor(d, d')) == Xor(Unmixed(a, b, c, d), Unmixed(a', b', c', d'))
  {
    GfMulLinear(a, C14, a'); GfMulLinear(b, C11, b'); GfMulLinear(c, C13, c'); GfMulLinear(d, C9, d');
    Sum4Linear(GfMul(a, C14), GfMul(b, C11), GfMul(c, C13), GfMul(d, C9),
               GfMul(a', C14), GfMul(b', C11), GfMul(c', C13), GfMul(d', C9));
  }

  // ---- the constants as sums of powers of x ----

  const C4 := Byte(false, false, false, false, false, true, false, false)
  const C8 := Byte(false, false, false, false, true, false, false, false)

  lemma ByPowers(a: Byte)
    ensures GfMul(a, C2) == Double(a)
    ensures GfMul(a, C4) == Double(Double(a))
    ensures GfMul(a, C8) == Double(Double(Double(a)))
  {
    assert C2 == Double(ONE) && C4 == Double(C2) && C8 == Double(C4);
    ProductUnit(a);
    ProductTimesX(ONE, a); ProductTimesX(C2, a); ProductTimesX(C4, a);
    ProductCommutes(a, C2); ProductCommutes(a, C4); ProductCommutes(a, C8);
  }

  lemma ByConstants(a: Byte)
    ensures var d, dd, ddd := Double(a), Double(Double(a)), Double(Double(Double(a)));
            && GfMul(a, C3) == Xor(d, a) && GfMul(a, C9) == Xor(ddd, a) && GfMul(a, C11) == Xor(ddd, Xor(d, a))
            && GfMul(a, C13) == Xor(Xor(ddd, a), dd) && GfMul(a, C14) == Xor(ddd, Xor(dd, d))
  {
    assert C3 == Xor(C2, ONE) && C9 == Xor(C8, ONE) && C11 == Xor(C8, C3);
    assert C13 == Xor(C9, C4) && C14 == Xor(C8, Xor(C4, C2));
    ByPowers(a);
    ProductUnit(a);
    GfMulLinear(a, C2, ONE); GfMulLinear(a, C8, ONE); GfMulLinear(a, C8, C3);
    GfMulLinear(a, C9, C4); GfMulLinear(a, C4, C2); GfMulLinear(a, C8, Xor(C4, C2));
  }

  // ---- unmixing undoes mixing ----

  lemma UnmixedScaled(a: Byte, p: Byte, q: Byte, r: Byte, s: Byte)
    ensures Unmixed(GfMul(a, p), GfMul(a, q), GfMul(a, r), GfMul(a, s)) == GfMul(a, Unmixed(p, q, r, s))
  {
    var p', q', r', s' := GfMul(p, C14), GfMul(q, C11), GfMul(r, C13), GfMul(s, C9);
    ProductAssociates(a, p, C14); ProductAssociates(a, q, C11);
    ProductAssociates(a, r, C13); ProductAssociates(a, s, C9);
    GfMulLinear(a, p', q'); GfMulLinear(a, r', s');
    GfMulLinear(a, Xor(p', q'), Xor(r', s'));
  }

  /** The rows of the two MixColumns matrices multiply to the identity. */
  lemma MatricesInverse()
    ensures Unmixed(C2, ONE, ONE, C3) == ONE
    ensures Unmixed(C3, C2, ONE, ONE) == ZERO
    ensures Unmixed(ONE, C3, C2, ONE) == ZERO
    ensures Unmixed(ONE, ONE, C3, C2) == ZERO
  {
    ByConstants(ONE); ByConstants(C2); ByConstants(C3);
  }

  lemma MixedOfOne(a: Byte)
    ensures Mixed(a, ZERO, ZERO, ZERO) == GfMul(a, C2) && Mixed(ZERO, a, ZERO, ZERO) == GfMul(a, C3)
    ensures Mixed(ZERO, ZERO, a, ZERO) == a && Mixed(ZERO, ZERO, ZERO, a) == a
  {
    ProductCommutes(ZERO, C2); ProductOfZero(C2);
    ProductCommutes(ZERO, C3); ProductOfZero(C3);
    XorZero(GfMul(a, C2)); XorZero(GfMul(a, C3)); XorZero(a); XorZero(ZERO);
    ZeroXor(GfMul(a, C3)); ZeroXor(a);
  }

  lemma ZeroXor(a: Byte)
    ensures Xor(ZERO, a) == a
  {
  }

  /** Mixing a column and unmixing it again, at its first row; the other rows are the same column turned. */
  function Again(a: Byte, b: Byte, c: Byte, d: Byte): Byte {
    Unmixed(Mixed(a, b, c, d), Mixed(b, c, d, a), Mixed(c, d, a, b), Mixed(d, a, b, c))
  }

  lemma AgainLinear(a: Byte, b: Byte, c: Byte, d: Byte, a': Byte, b': Byte, c': Byte, d': Byte)
    ensures Again(Xor(a, a'), Xor(b, b'), Xor(c, c'), Xor(d, d')) == Xor(Again(a, b, c, d), Again(a', b', c', d'))
  {
    MixedLinear(a, b, c, d, a', b', c', d'); MixedLinear(b, c, d, a, b', c', d', a');
    MixedLinear(c, d, a, b, c', d', a', b'); MixedLinear(d, a, b, c, d', a', b', c');
    UnmixedLinear(Mixed(a, b, c, d), Mixed(b, c, d, a), Mixed(c, d, a, b), Mixed(d, a, b, c),
                  Mixed(a', b', c', d'), Mixed(b', c', d', a'), Mixed(c', d', a', b'), Mixed(d', a', b', c'));
  }

  lemma AgainOfOne(a: Byte)
    ensures Again(a, ZERO, ZERO, ZERO) == a
    ensures Again(ZERO, a, ZERO, ZERO) == ZERO
    ensures Again(ZERO, ZERO, a, ZERO) == ZERO
    ensures Again(ZERO, ZERO, ZERO, a) == ZERO
  {
    MixedOfOne(a);
    MatricesInverse();
    ProductUnit(a); ProductOfZero(a);
    UnmixedScaled(a, C2, ONE, ONE, C3); UnmixedScaled(a, C3, C2, ONE, ONE);
    UnmixedScaled(a, ONE, C3, C2, ONE); UnmixedScaled(a, ONE, ONE, C3, C2);
  }

  lemma ColumnInverse(a: Byte, b: Byte, c: Byte, d: Byte)
    ensures Again(a, b, c, d) == a
  {
    AgainOfOne(a); AgainOfOne(b); AgainOfOne(c); AgainOfOne(d);
    AgainLinear(a, ZERO, ZERO, ZERO, ZERO, b, ZERO, ZERO);
    AgainLinear(ZERO, ZERO, c, ZERO, ZERO, ZERO, ZERO, d);
    AgainLinear(a, b, ZERO, ZERO, ZERO, ZERO, c, d);
    XorZero(a); XorZero(b); XorZero(c); XorZero(ZERO);
    ZeroXor(b); ZeroXor(c); ZeroXor(d);
  }

  // ---- blocks ----

  type Shift = t: seq<nat> | |t| == 16 && forall i :: 0 <= i < 16 ==> t[i] < 16 witness seq(16, _ => 0)

  const ENC_SHIFT: Shift := [0, 5, 10, 15, 4, 9, 14, 3, 8, 13, 2, 7, 12, 1, 6, 11]
  const DEC_SHIFT: Shift := [0, 13, 10, 7, 4, 1, 14, 11, 8, 5, 2, 15, 12, 9, 6, 3]

  /** ShiftRows and SubBytes. */
  function Substituted(box: Byte -> Byte, shift: Shift, s: Block): Block {
    seq(16, i requires 0 <= i < 16 => box(s[shift[i]]))
  }

  /** The place k rows below place i in its column, going round. */
  function Below(i: nat, k: nat): (j: nat)
    requires i < 16 && k < 4
    ensures j < 16
  {
    if i % 4 + k < 4 then i + k else i + k - 4
  }

  function MixAt(mix: (Byte, Byte, Byte, Byte) -> Byte, s: Block, i: nat): Byte
    requires i < 16
  {
    mix(s[i], s[Below(i, 1)], s[Below(i, 2)], s[Below(i, 3)])
  }

  /** Each byte mixed with the others of its column. */
  function MixWith(mix: (Byte, Byte, Byte, Byte) -> Byte, s: Block): Block {
    seq(16, i requires 0 <= i < 16 => MixAt(mix, s, i))
  }

  function MixColumns(s: Block): Block { MixWith(Mixed, s) }
  function InvMixColumns(s: Block): Block { MixWith(Unmixed, s) }

  function AddKey(s: Block, k: Block): Block {
    seq(16, i requires 0 <= i < 16 => Xor(s[i], k[i]))
  }

  /** Four places going down a column and round. */
  predicate Column(i: nat, j: nat, k: nat, l: nat) {
    i < 16 && j == Below(i, 1) && k == Below(i, 2) && l == Below(i, 3)
  }

  lemma ColumnTurns(i: nat, j: nat, k: nat, l: nat)
    requires Column(i, j, k, l)
    ensures Column(j, k, l, i)
  {
  }

  /** ShiftRows: row r of the state turns left by r columns; its inverse turns right. */
  lemma ShiftsTurnRows(r: nat, c: nat)
    requires r < 4 && c < 4
    ensures ENC_SHIFT[4 * c + r] == 4 * ((c + r) % 4) + r
    ensures DEC_SHIFT[4 * c + r] == 4 * ((c + 4 - r) % 4) + r
  {
    if c == 0 { TurnsInColumn0(r, c); } else if c == 1 { TurnsInColumn1(r, c); }
    else if c == 2 { TurnsInColumn2(r, c); } else { TurnsInColumn3(r, c); }
  }

  lemma TurnsInColumn0(r: nat, c: nat)
    requires r < 4 && c == 0
    ensures ENC_SHIFT[4 * c + r] == 4 * ((c + r) % 4) + r && DEC_SHIFT[4 * c + r] == 4 * ((c + 4 - r) % 4) + r
  {
    if r == 0 { } else if r == 1 { } else if r == 2 { } else { }
  }

  lemma TurnsInColumn1(r: nat, c: nat)
    requires r < 4 && c == 1
    ensures ENC_SHIFT[4 * c + r] == 4 * ((c + r) % 4) + r && DEC_SHIFT[4 * c + r] == 4 * ((c + 4 - r) % 4) + r
  {
    if r == 0 { } else if r == 1 { } else if r == 2 { } else { }
  }

  lemma TurnsInColumn2(r: nat, c: nat)
    requires r < 4 && c == 2
    ensures ENC_SHIFT[4 * c + r] == 4 * ((c + r) % 4) + r && DEC_SHIFT[4 * c + r] == 4 * ((c + 4 - r) % 4) + r
  {
    if r == 0 { } else if r == 1 { } else if r == 2 { } else { }
  }

  lemma TurnsInColumn3(r: nat, c: nat)
    requires r < 4 && c == 3
    ensures ENC_SHIFT[4 * c + r] == 4 * ((c + r) % 4) + r && DEC_SHIFT[4 * c + r] == 4 * ((c + 4 - r) % 4) + r
  {
    if r == 0 { } else if r == 1 { } else if r == 2 { } else { }
  }

  lemma SubstitutedInverse(box: Byte -> Byte, inv: Byte -> Byte, s: Block)
    requires forall x :: inv(box(x)) == x
    ensures Substituted(inv, DEC_SHIFT, Substituted(box, ENC_SHIFT, s)) == s
  {
    forall i | 0 <= i < 16 ensures ENC_SHIFT[DEC_SHIFT[i]] == i { ShiftsInverse(i); }
  }

  lemma ShiftsInverse(i: nat)
    requires i < 16
    ensures ENC_SHIFT[DEC_SHIFT[i]] == i
  {
  }

  lemma MixedAt(s: Block, i: nat, j: nat, k: nat, l: nat)
    requires Column(i, j, k, l)
    ensures MixColumns(s)[i] == Mixed(s[i], s[j], s[k], s[l])
  {
  }

  lemma UnmixedColumn(a: Byte, b: Byte, c: Byte, d: Byte, p: Byte, q: Byte, r: Byte, s: Byte)
    requires p == Mixed(a, b, c, d) && q == Mixed(b, c, d, a) && r == Mixed(c, d, a, b) && s == Mixed(d, a, b, c)
    ensures Unmixed(p, q, r, s) == a
  {
    ColumnInverse(a, b, c, d);
  }

  lemma MixInverseAt(s: Block, m: Block, i: nat)
    requires i < 16 && m == MixColumns(s)
    ensures Unmixed(m[i], m[Below(i, 1)], m[Below(i, 2)], m[Below(i, 3)]) == s[i]
  {
    var j, k, l := Below(i, 1), Below(i, 2), Below(i, 3);
    ColumnTurns(i, j, k, l); ColumnTurns(j, k, l, i); ColumnTurns(k, l, i, j);
    MixedAt(s, i, j, k, l); MixedAt(s, j, k, l, i); MixedAt(s, k, l, i, j); MixedAt(s, l, i, j, k);
    UnmixedColumn(s[i], s[j], s[k], s[l], m[i], m[j], m[k], m[l]);
  }

  lemma MixInverse(s: Block)
    ensures InvMixColumns(MixColumns(s)) == s
  {
    var m := MixColumns(s);
    forall i | 0 <= i < 16 ensures Unmixed(m[i], m[Below(i, 1)], m[Below(i, 2)], m[Below(i, 3)]) == s[i] {
      MixInverseAt(s, m, i);
    }
  }

  lemma UnmixedOfSums(a: Byte, b: Byte, c: Byte, d: Byte, a': Byte, b': Byte, c': Byte, d': Byte,
                      p: Byte, q: Byte, r: Byte, s: Byte)
    requires p == Xor(a, a') && q == Xor(b, b') && r == Xor(c, c') && s == Xor(d, d')
    ensures Unmixed(p, q, r, s) == Xor(Unmixed(a, b, c, d), Unmixed(a', b', c', d'))
  {
    UnmixedLinear(a, b, c, d, a', b', c', d');
  }

  lemma InvMixLinearAt(s: Block, k: Block, t: Block, i: nat)
    requires i < 16 && t == AddKey(s, k)
    ensures MixAt(Unmixed, t, i) == Xor(MixAt(Unmixed, s, i), MixAt(Unmixed, k, i))
  {
    var j, l, m := Below(i, 1), Below(i, 2), Below(i, 3);
    UnmixedOfSums(s[i], s[j], s[l], s[m], k[i], k[j], k[l], k[m], t[i], t[j], t[l], t[m]);
  }

  lemma InvMixLinear(s: Block, k: Block)
    ensures InvMixColumns(AddKey(s, k)) == AddKey(InvMixColumns(s), InvMixColumns(k))
  {
    var t := AddKey(s, k);
    forall i | 0 <= i < 16 ensures MixAt(Unmixed, t, i) == Xor(MixAt(Unmixed, s, i), MixAt(Unmixed, k, i)) {
      InvMixLinearAt(s, k, t, i);
    }
  }

  lemma AddKeyUndo(s: Block, k: Block)
    ensures AddKey(AddKey(s, k), k) == s
  {
    forall i | 0 <= i < 16 ensures AddKey(AddKey(s, k), k)[i] == s[i] { XorUndo(s[i], k[i]); }
  }

  // ---- the round ----

  /** One round, encrypting or decrypting, the last one without its MixColumns. */
  function Round(decrypt: bool, last: bool, s: Block, k: Block): Block {
    var t := if decrypt then Substituted(InvSbox, DEC_SHIFT, s) else Substituted(Sbox, ENC_SHIFT, s);
    AddKey(if last then t else if decrypt then InvMixColumns(t) else MixColumns(t), k)
  }

  function Box(decrypt: bool): Byte -> Byte { if decrypt then InvSbox else Sbox }

  /** What SubBytes and ShiftRows leave in row r and column c: row r has turned left by r columns, or right when
      decrypting, and each byte has gone through the box. */
  lemma SubstitutedAt(decrypt: bool, box: Byte -> Byte, s: Block, r: nat, c: nat)
    requires r < 4 && c < 4
    ensures Substituted(box, if decrypt then DEC_SHIFT else ENC_SHIFT, s)[4 * c + r]
         == box(s[4 * ((c + if decrypt then 4 - r else r) % 4) + r])
  {
    var shift: Shift := if decrypt then DEC_SHIFT else ENC_SHIFT;
    ShiftIs(decrypt, shift, r, c);
    LookedUp(box, shift, s, 4 * c + r);
  }

  lemma ShiftIs(decrypt: bool, shift: Shift, r: nat, c: nat)
    requires r < 4 && c < 4 && shift == if decrypt then DEC_SHIFT else ENC_SHIFT
    ensures shift[4 * c + r] == 4 * ((c + if decrypt then 4 - r else r) % 4) + r
  {
    if decrypt { ShiftsTurnRows(r, c); } else { ShiftsTurnRows(r, c); }
  }

  lemma LookedUp(box: Byte -> Byte, shift: Shift, s: Block, i: nat)
    requires i < 16
    ensures Substituted(box, shift, s)[i] == box(s[shift[i]])
  {
  }

  /** The last round, byte by byte: shifted, substituted, and the key added. */
  lemma LastRoundBytes(decrypt: bool, s: Block, k: Block, r: nat, c: nat)
    requires r < 4 && c < 4
    ensures var x := s[4 * ((c + if decrypt then 4 - r else r) % 4) + r];
            Round(decrypt, true, s, k)[4 * c + r] == Xor(if decrypt then InvSbox(x) else Sbox(x), k[4 * c + r])
  {
    SubstitutedAt(decrypt, Box(decrypt), s, r, c);
    RoundMixes(decrypt, s, k, Substituted(Box(decrypt), if decrypt then DEC_SHIFT else ENC_SHIFT, s));
  }

  /** Any other round: the column of the shifted and substituted state, its bytes x, y, z and w from row r down and
      round, is mixed, or unmixed when decrypting, before the key is added. */
  lemma RoundBytes(decrypt: bool, box: Byte -> Byte, s: Block, k: Block, c: nat, r: nat, q: nat, u: nat, v: nat,
                   x: Byte, y: Byte, z: Byte, w: Byte)
    requires c < 4 && r < 4 && q == (r + 1) % 4 && u == (r + 2) % 4 && v == (r + 3) % 4
    requires box == if decrypt then InvSbox else Sbox
    requires x == box(s[4 * ((c + if decrypt then 4 - r else r) % 4) + r])
    requires y == box(s[4 * ((c + if decrypt then 4 - q else q) % 4) + q])
    requires z == box(s[4 * ((c + if decrypt then 4 - u else u) % 4) + u])
    requires w == box(s[4 * ((c + if decrypt then 4 - v else v) % 4) + v])
    ensures Round(decrypt, false, s, k)[4 * c + r] ==
            Xor(if decrypt then Unmixed(x, y, z, w) else Mixed(x, y, z, w), k[4 * c + r])
  {
    var t := Substituted(box, if decrypt then DEC_SHIFT else ENC_SHIFT, s);
    BytesAt(decrypt, box, s, t, c, r, q, u, v, x, y, z, w);
    MixedRoundAt(Mixer(decrypt), t, k, c, r, q, u, v, x, y, z, w);
    RoundMixes(decrypt, s, k, t);
  }

  /** The first rows of the matrices of sections 5.1.3 and 5.3.3 of FIPS 197. */
  lemma MatricesInNumbers(x: Byte, y: Byte, z: Byte, w: Byte)
    ensures Mixed(x, y, z, w) == Xor(Xor(GfMul(x, Bits(0x02)), GfMul(y, Bits(0x03))), Xor(z, w))
    ensures Unmixed(x, y, z, w) ==
            Xor(Xor(GfMul(x, Bits(0x0e)), GfMul(y, Bits(0x0b))), Xor(GfMul(z, Bits(0x0d)), GfMul(w, Bits(0x09))))
  {
    ConstantsInNumbers();
  }

  lemma BytesAt(decrypt: bool, box: Byte -> Byte, s: Block, t: Block, c: nat, r: nat, q: nat, u: nat, v: nat,
                x: Byte, y: Byte, z: Byte, w: Byte)
    requires c < 4 && r < 4 && q < 4 && u < 4 && v < 4
    requires t == Substituted(box, if decrypt then DEC_SHIFT else ENC_SHIFT, s)
    requires x == box(s[4 * ((c + if decrypt then 4 - r else r) % 4) + r])
    requires y == box(s[4 * ((c + if decrypt then 4 - q else q) % 4) + q])
    requires z == box(s[4 * ((c + if decrypt then 4 - u else u) % 4) + u])
    requires w == box(s[4 * ((c + if decrypt then 4 - v else v) % 4) + v])
    ensures t[4 * c + r] == x && t[4 * c + q] == y && t[4 * c + u] == z && t[4 * c + v] == w
  {
    ByteAt(decrypt, box, s, t, r, c, x);
    ByteAt(decrypt, box, s, t, q, c, y);
    ByteAt(decrypt, box, s, t, u, c, z);
    ByteAt(decrypt, box, s, t, v, c, w);
  }

  lemma ByteAt(decrypt: bool, box: Byte -> Byte, s: Block, t: Block, r: nat, c: nat, x: Byte)
    requires r < 4 && c < 4 && t == Substituted(box, if decrypt then DEC_SHIFT else ENC_SHIFT, s)
    requires x == box(s[4 * ((c + if decrypt then 4 - r else r) % 4) + r])
    ensures t[4 * c + r] == x
  {
    SubstitutedAt(decrypt, box, s, r, c);
  }

  lemma RoundMixes(decrypt: bool, s: Block, k: Block, t: Block)
    requires t == Substituted(Box(decrypt), if decrypt then DEC_SHIFT else ENC_SHIFT, s)
    ensures Round(decrypt, true, s, k) == AddKey(t, k)
    ensures Round(decrypt, false, s, k) == AddKey(MixWith(Mixer(decrypt), t), k)
  {
  }

  lemma MixedRoundAt(mix: (Byte, Byte, Byte, Byte) -> Byte, t: Block, k: Block,
                     c: nat, r: nat, q: nat, u: nat, v: nat, x: Byte, y: Byte, z: Byte, w: Byte)
    requires c < 4 && r < 4 && q == (r + 1) % 4 && u == (r + 2) % 4 && v == (r + 3) % 4
    requires t[4 * c + r] == x && t[4 * c + q] == y && t[4 * c + u] == z && t[4 * c + v] == w
    ensures AddKey(MixWith(mix, t), k)[4 * c + r] == Xor(mix(x, y, z, w), k[4 * c + r])
  {
    BelowAt(r, c);
  }

  lemma BelowAt(r: nat, c: nat)
    requires r < 4 && c < 4
    ensures Below(4 * c + r, 1) == 4 * c + (r + 1) % 4 && Below(4 * c + r, 2) == 4 * c + (r + 2) % 4
    ensures Below(4 * c + r, 3) == 4 * c + (r + 3) % 4
  {
  }

  lemma ConstantsInNumbers()
    ensures Bits(0x02) == C2 && Bits(0x03) == C3
    ensures Bits(0x09) == C9 && Bits(0x0b) == C11 && Bits(0x0d) == C13 && Bits(0x0e) == C14
  {
  }

  /** A decrypting round on a substituted state takes off the encrypting round that came after it. */
  lemma RoundInverse(s: Block, k: Block)
    ensures Round(true, false, Substituted(Sbox, ENC_SHIFT, Round(false, false, s, k)), InvMixColumns(k))
         == Substituted(Sbox, ENC_SHIFT, s)
  {
    var e := Substituted(Sbox, ENC_SHIFT, s);
    var t := Round(false, false, s, k);
    forall x ensures InvSbox(Sbox(x)) == x { SboxInverse(x); }
    SubstitutedInverse(Sbox, InvSbox, t);
    InvMixLinear(MixColumns(e), k);
    MixInverse(e);
    AddKeyUndo(e, InvMixColumns(k));
  }

  lemma LastRoundInverse(s: Block, k: Block)
    ensures Round(true, true, Substituted(Sbox, ENC_SHIFT, s), k) == AddKey(s, k)
  {
    forall x ensures InvSbox(Sbox(x)) == x { SboxInverse(x); }
    SubstitutedInverse(Sbox, InvSbox, s);
  }

  // ---- the cipher and the equivalent inverse cipher of FIPS 197 ----

  /** The middle rounds, with the keys in order. */
  function Rounds(decrypt: bool, s: Block, keys: seq<Block>): Block {
    if keys == [] then s else Round(decrypt, false, Rounds(decrypt, s, keys[..|keys| - 1]), keys[|keys| - 1])
  }

  function Cipher(s: Block, first: Block, middle: seq<Block>, last: Block): Block {
    Round(false, true, Rounds(false, AddKey(s, first), middle), last)
  }

  function InverseCipher(s: Block, first: Block, middle: seq<Block>, last: Block): Block {
    Round(true, true, Rounds(true, AddKey(s, first), middle), last)
  }

  /** Section 5.3.5 of FIPS 197: the middle keys in reverse, each through InvMixColumns. */
  function DecryptionKeys(middle: seq<Block>): seq<Block> {
    if middle == [] then [] else [InvMixColumns(middle[|middle| - 1])] + DecryptionKeys(middle[..|middle| - 1])
  }

  lemma {:induction false} RoundsFront(decrypt: bool, s: Block, k: Block, keys: seq<Block>)
    ensures Rounds(decrypt, s, [k] + keys) == Rounds(decrypt, Round(decrypt, false, s, k), keys)
    decreases |keys|
  {
    var all := [k] + keys;
    if keys == [] {
      assert all[..0] == [] && all == [k];
    } else {
      var n := |keys| - 1;
      assert all[..|all| - 1] == [k] + keys[..n];
      RoundsFront(decrypt, s, k, keys[..n]);
    }
  }

  lemma {:induction false} RoundsUndone(s: Block, middle: seq<Block>)
    ensures Rounds(true, Substituted(Sbox, ENC_SHIFT, Rounds(false, s, middle)), DecryptionKeys(middle))
         == Substituted(Sbox, ENC_SHIFT, s)
    decreases |middle|
  {
    if middle != [] {
      var k, rest := middle[|middle| - 1], middle[..|middle| - 1];
      var t := Rounds(false, s, rest);
      var e := Substituted(Sbox, ENC_SHIFT, Round(false, false, t, k));
      RoundsFront(true, e, InvMixColumns(k), DecryptionKeys(rest));
      RoundInverse(t, k);
      RoundsUndone(s, rest);
    }
  }

  /** Whatever the keys and however many rounds, decrypting gives back what was encrypted. */
  lemma DecryptsWhatWasEncrypted(s: Block, first: Block, middle: seq<Block>, last: Block)
    ensures InverseCipher(Cipher(s, first, middle, last), last, DecryptionKeys(middle), first) == s
  {
    var t := Rounds(false, AddKey(s, first), middle);
    var e := Substituted(Sbox, ENC_SHIFT, t);
    AddKeyUndo(e, last);
    RoundsUndone(AddKey(s, first), middle);
    LastRoundInverse(AddKey(s, first), first);
    AddKeyUndo(s, first);
  }

  // ---- the round on byte buffers ----

  function Chain4(a: Byte, b: Byte, c: Byte, d: Byte): Byte { Xor(Xor(Xor(a, b), c), d) }

  lemma XorCommutes(a: Byte, b: Byte)
    ensures Xor(a, b) == Xor(b, a)
  {
  }

  lemma ChainIsSum(a: Byte, b: Byte, c: Byte, d: Byte)
    ensures Chain4(a, b, c, d) == Sum4(a, b, c, d)
  {
    XorAssoc(Xor(a, b), c, d);
  }

  /** The sum may start anywhere in the column. */
  lemma SumTurns(a: Byte, b: Byte, c: Byte, d: Byte)
    ensures Sum4(a, b, c, d) == Sum4(b, c, d, a)
  {
    XorAssoc(a, b, Xor(c, d));
    XorAssoc(b, c, d);
    XorCommutes(a, Xor(Xor(b, c), d));
    XorAssoc(Xor(b, c), d, a);
  }

  lemma ChainTurns(a: Byte, b: Byte, c: Byte, d: Byte)
    ensures Chain4(a, b, c, d) == Sum4(a, b, c, d) == Sum4(b, c, d, a) == Sum4(c, d, a, b) == Sum4(d, a, b, c)
  {
    ChainIsSum(a, b, c, d);
    SumTurns(a, b, c, d); SumTurns(b, c, d, a); SumTurns(c, d, a, b);
  }

  method MixColumn(a: Byte, b: Byte, c: Byte, d: Byte) returns (p: Byte, q: Byte, r: Byte, s: Byte)
    ensures p == Mixed(a, b, c, d) && q == Mixed(b, c, d, a) && r == Mixed(c, d, a, b) && s == Mixed(d, a, b, c)
  {
    var x := Multiply(a, C2);
    var y := Multiply(b, C3);
    p := Chain4(x, y, c, d); ChainTurns(x, y, c, d);
    x := Multiply(b, C2);
    y := Multiply(c, C3);
    q := Chain4(a, x, y, d); ChainTurns(a, x, y, d);
    x := Multiply(c, C2);
    y := Multiply(d, C3);
    r := Chain4(a, b, x, y); ChainTurns(a, b, x, y);
    x := Multiply(a, C3);
    y := Multiply(d, C2);
    s := Chain4(x, b, c, y); ChainTurns(x, b, c, y);
  }

  method UnmixColumn(a: Byte, b: Byte, c: Byte, d: Byte) returns (p: Byte, q: Byte, r: Byte, s: Byte)
    ensures p == Unmixed(a, b, c, d) && q == Unmixed(b, c, d, a) && r == Unmixed(c, d, a, b) && s == Unmixed(d, a, b, c)
  {
    p := UnmixRow(a, C14, b, C11, c, C13, d, C9);
    q := UnmixRow(a, C9, b, C14, c, C11, d, C13);
    r := UnmixRow(a, C13, b, C9, c, C14, d, C11);
    s := UnmixRow(a, C11, b, C13, c, C9, d, C14);
  }

  /** One byte of an unmixed column; the sum may be read from any of its terms. */
  method UnmixRow(a: Byte, j: Byte, b: Byte, k: Byte, c: Byte, l: Byte, d: Byte, m: Byte) returns (o: Byte)
    ensures var w, x, y, z := GfMul(a, j), GfMul(b, k), GfMul(c, l), GfMul(d, m);
            o == Sum4(w, x, y, z) == Sum4(x, y, z, w) == Sum4(y, z, w, x) == Sum4(z, w, x, y)
  {
    var w := Multiply(a, j);
    var x := Multiply(b, k);
    var y := Multiply(c, l);
    var z := Multiply(d, m);
    o := Chain4(w, x, y, z);
    ChainTurns(w, x, y, z);
  }

  /** The mixing a round does. */
  function Mixer(decrypt: bool): (Byte, Byte, Byte, Byte) -> Byte { if decrypt then Unmixed else Mixed }

  /** One column, mixed or unmixed. */
  method MixOne(decrypt: bool, a: Byte, b: Byte, c: Byte, d: Byte) returns (p: Byte, q: Byte, r: Byte, s: Byte)
    ensures var mix := Mixer(decrypt);
            p == mix(a, b, c, d) && q == mix(b, c, d, a) && r == mix(c, d, a, b) && s == mix(d, a, b, c)
  {
    if decrypt {
      p, q, r, s := UnmixColumn(a, b, c, d);
    } else {
      p, q, r, s := MixColumn(a, b, c, d);
    }
  }

  /** Column col of goal is column col of s, mixed. */
  ghost predicate ColumnGoal(decrypt: bool, s: Block, goal: Block, col: nat)
    requires col < 4
  {
    var i, mix := 4 * col, Mixer(decrypt);
    var a, b, c, d := s[i], s[i + 1], s[i + 2], s[i + 3];
    && goal[i] == mix(a, b, c, d) && goal[i + 1] == mix(b, c, d, a)
    && goal[i + 2] == mix(c, d, a, b) && goal[i + 3] == mix(d, a, b, c)
  }

  lemma GoalColumn(mix: (Byte, Byte, Byte, Byte) -> Byte, s: Block, i: nat)
    requires i % 4 == 0 && i < 16
    ensures var a, b, c, d := s[i], s[i + 1], s[i + 2], s[i + 3];
            var goal := MixWith(mix, s);
            && goal[i] == mix(a, b, c, d) && goal[i + 1] == mix(b, c, d, a)
            && goal[i + 2] == mix(c, d, a, b) && goal[i + 3] == mix(d, a, b, c)
  {
  }

  lemma GoalColumns(decrypt: bool, s: Block)
    ensures forall col :: 0 <= col < 4 ==> ColumnGoal(decrypt, s, MixWith(Mixer(decrypt), s), col)
  {
    forall col | 0 <= col < 4 ensures ColumnGoal(decrypt, s, MixWith(Mixer(decrypt), s), col) {
      GoalColumn(Mixer(decrypt), s, 4 * col);
    }
  }

  /** MixColumns or its inverse, column by column into a second buffer. */
  method MixBuffer(decrypt: bool, tmp: array<Byte>, ghost goal: Block) returns (mixed: array<Byte>)
    requires tmp.Length == 16 && forall col :: 0 <= col < 4 ==> ColumnGoal(decrypt, tmp[..], goal, col)
    ensures fresh(mixed) && mixed.Length == 16 && mixed[..] == goal
  {
    mixed := new Byte[16];
    for col := 0 to 4
      invariant forall k :: 0 <= k < 4 ==> ColumnGoal(decrypt, tmp[..], goal, k)
      invariant mixed[..4 * col] == goal[..4 * col]
    {
      assert ColumnGoal(decrypt, tmp[..], goal, col);
      MixInto(decrypt, tmp, mixed, col, goal);
    }
  }

  method MixInto(decrypt: bool, tmp: array<Byte>, mixed: array<Byte>, col: nat, ghost goal: Block)
    requires tmp.Length == 16 && mixed.Length == 16 && mixed != tmp && col < 4
    requires ColumnGoal(decrypt, tmp[..], goal, col) && mixed[..4 * col] == goal[..4 * col]
    modifies mixed
    ensures mixed[..4 * (col + 1)] == goal[..4 * (col + 1)]
  {
    var c := 4 * col;
    var p, q, r, t := MixOne(decrypt, tmp[c], tmp[c + 1], tmp[c + 2], tmp[c + 3]);
    PutColumn(mixed, c, p, q, r, t, goal);
  }

  method PutColumn(mixed: array<Byte>, c: nat, p: Byte, q: Byte, r: Byte, t: Byte, ghost goal: Block)
    requires mixed.Length == 16 && c <= 12 && mixed[..c] == goal[..c]
    requires goal[c] == p && goal[c + 1] == q && goal[c + 2] == r && goal[c + 3] == t
    modifies mixed
    ensures mixed[..c + 4] == goal[..c + 4]
  {
    forall i | 0 <= i < c ensures mixed[i] == goal[i] { assert mixed[..c][i] == goal[..c][i]; }
    mixed[c], mixed[c + 1], mixed[c + 2], mixed[c + 3] := p, q, r, t;
    forall i | 0 <= i < c + 4 ensures mixed[i] == goal[i] { }
  }

  /** SubBytes and ShiftRows in one loop. */
  method SubstituteBuffer(box: Byte -> Byte, shift: Shift, state: array<Byte>) returns (tmp: array<Byte>)
    requires state.Length == 16
    ensures fresh(tmp) && tmp.Length == 16 && tmp[..] == Substituted(box, shift, state[..])
  {
    tmp := new Byte[16];
    for i := 0 to 16
      invariant forall j :: 0 <= j < i ==> tmp[j] == box(state[shift[j]])
    {
      tmp[i] := box(state[shift[i]]);
    }
  }

  /** AddRoundKey; the output may be the key's own buffer. */
  method AddKeyBuffer(tmp: array<Byte>, roundKey: array<Byte>, out: array<Byte>)
    requires tmp.Length == 16 && roundKey.Length == 16 && out.Length == 16 && tmp != out
    modifies out
    ensures out[..] == AddKey(tmp[..], old(roundKey[..]))
  {
    for i := 0 to 16
      invariant forall j :: i <= j < 16 ==> roundKey[j] == old(roundKey[j])
      invariant forall j :: 0 <= j < i ==> out[j] == Xor(tmp[j], old(roundKey[j]))
    {
      out[i] := Xor(tmp[i], roundKey[i]);
    }
  }

  /** avx_aes_round; the output may be the state's or the key's own buffer. */
  method AesRound(decrypt: bool, last: bool, state: array<Byte>, roundKey: array<Byte>, out: array<Byte>)
    requires state.Length == 16 && roundKey.Length == 16 && out.Length == 16
    modifies out
    ensures out[..] == Round(decrypt, last, old(state[..]), old(roundKey[..]))
  {
    var shift: Shift := if decrypt then DEC_SHIFT else ENC_SHIFT;
    var box: Byte -> Byte := if decrypt then InvSbox else Sbox;
    var tmp := SubstituteBuffer(box, shift, state);
    if !last {
      GoalColumns(decrypt, tmp[..]);
      tmp := MixBuffer(decrypt, tmp, MixWith(Mixer(decrypt), tmp[..]));
    }
    AddKeyBuffer(tmp, roundKey, out);
  }
}
