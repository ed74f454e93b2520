/** Three small helpers of the server: shortening a hex colour to three hex
    digits (`compressHexColor`), picking cell ids by index (`getCellIDs`) and
    carrying a lasso selection over to another dataset by cell id
    (`translateLassoSelection`). The cell ids of a loom file are given as a
    sequence. */
module Cells {
  import opened Results
  import opened Sequences

  // ---------------------------------------------------------------------------
  // Hexadecimal text

  predicate IsHexDigit(c: char) {
    '0' <= c <= '9' || 'a' <= c <= 'f' || 'A' <= c <= 'F'
  }

  function HexDigitValue(c: char): (v: nat)
    requires IsHexDigit(c)
    ensures v < 16
  {
    if '0' <= c <= '9' then c as int - 48
    else if 'a' <= c <= 'f' then c as int - 87
    else c as int - 55
  }

  /** A digit as `hex` writes it: '0'..'9' or lower-case 'a'..'f'. */
  predicate IsLowerHexDigit(c: char) {
    '0' <= c <= '9' || 'a' <= c <= 'f'
  }

  /** The lower-case digit `hex` writes for `d`. */
  function HexDigit(d: nat): (c: char)
    requires d < 16
    ensures IsLowerHexDigit(c) && IsHexDigit(c) && HexDigitValue(c) == d
  {
    if d < 10 then (48 + d) as char else (87 + d) as char
  }

  function HexDigitsValue(s: string): nat
    requires forall j :: 0 <= j < |s| ==> IsHexDigit(s[j])
  {
    if s == [] then 0 else HexDigitsValue(s[..|s| - 1]) * 16 + HexDigitValue(s[|s| - 1])
  }

  /** `hex(v)` without its "0x": lower-case digits, no leading zeros. */
  function HexString(v: nat): (r: string)
    ensures r != []
    ensures forall j :: 0 <= j < |r| ==> IsLowerHexDigit(r[j]) && IsHexDigit(r[j]) && r[j] != 'x'
    ensures |r| > 1 ==> r[0] != '0'
  {
    if v < 16 then [HexDigit(v)] else HexString(v / 16) + [HexDigit(v % 16)]
  }

  /** `int(s, 16)`: hex digits, with an optional "0x" or "0X" in front; any
      other text is a ValueError (None). */
  function ParseHex(s: string): (r: Option<nat>)
  {
    var digits := if |s| >= 2 && s[0] == '0' && (s[1] == 'x' || s[1] == 'X') then s[2..] else s;
    if digits != [] && forall j | 0 <= j < |digits| :: IsHexDigit(digits[j]) then Some(HexDigitsValue(digits))
    else None
  }

  /** Reading `hex` output back gives the number. */
  lemma {:induction false} ParseHexString(v: nat)
    ensures ParseHex(HexString(v)) == Some(v)
  {
    HexStringValue(v);
  }

  lemma {:induction false} HexStringValue(v: nat)
    ensures HexDigitsValue(HexString(v)) == v
  {
    var r := HexString(v);
    if v < 16 {
      assert r[..0] == [];
    } else {
      HexStringValue(v / 16);
      assert r[..|r| - 1] == HexString(v / 16);
    }
  }

  // ---------------------------------------------------------------------------
  // compressHexColor

  /** `x | y` on whole numbers, bit by bit. */
  function BitOr(x: nat, y: nat): nat
    decreases x + y
  {
    if x == 0 then y
    else if y == 0 then x
    else 2 * BitOr(x / 2, y / 2) + (if x % 2 == 1 || y % 2 == 1 then 1 else 0)
  }

  function Pow2(k: nat): (p: nat)
    ensures p >= 1
  {
    if k == 0 then 1 else 2 * Pow2(k - 1)
  }

  /** Or-ing a multiple of `2^k` with a number below `2^k` adds them: their
      bits do not overlap. */
  lemma {:induction false} BitOrDisjoint(q: nat, y: nat, k: nat)
    requires y < Pow2(k)
    ensures BitOr(Pow2(k) * q, y) == Pow2(k) * q + y
    decreases k
  {
    var x := Pow2(k) * q;
    if x != 0 && y != 0 {
      var p := Pow2(k - 1);
      var m := p * q;
      assert x == 2 * m;
      BitOrDisjoint(q, y / 2, k - 1);
    }
  }

  /** The three fields of the short colour: the bits of `a` from bit 20 up,
      moved down to start at bit 8; bits 12-15 of `a` at bits 4-7; and bits
      4-7 of `a` at bits 0-3 (`a >> 20 << 8`, `a >> 8 & 240` and
      `a >> 4 & 15`, where and-ing with 240 or 15 keeps bits 4-7 or 0-3). */
  function HighField(a: nat): nat { a / 1048576 * 256 }
  function MiddleField(a: nat): nat { (a / 256) % 256 / 16 * 16 }
  function LowField(a: nat): nat { (a / 16) % 16 }

  /** `compressHexColor`: parse the colour, or the three fields together,
      written with `hex` and its "0x" removed. */
  function CompressHexColor(s: string): Result<string, string> {
    match ParseHex(s)
    case None => Failure(s)
    case Some(a) => Success(HexString(BitOr(BitOr(HighField(a), MiddleField(a)), LowField(a))))
  }

  /** The fields occupy disjoint bits, so or-ing them adds them. */
  lemma FieldsDisjoint(a: nat)
    ensures BitOr(BitOr(HighField(a), MiddleField(a)), LowField(a)) == HighField(a) + MiddleField(a) + LowField(a)
  {
    assert Pow2(4) == 16;
    assert Pow2(8) == 256 by {
      assert Pow2(5) == 32;
    }
    var high := a / 1048576;
    var middle := (a / 256) % 256 / 16;
    BitOrDisjoint(high, MiddleField(a), 8);
    assert HighField(a) + MiddleField(a) == 16 * (16 * high + middle);
    BitOrDisjoint(16 * high + middle, LowField(a), 4);
  }

  lemma DivMod16(a: nat, q: nat, r: nat)
    requires r < 16 && a == q * 16 + r
    ensures a / 16 == q && a % 16 == r
  {
  }

  lemma DivMod256(a: nat, q: nat, r: nat)
    requires r < 256 && a == q * 256 + r
    ensures a / 256 == q && a % 256 == r
  {
  }

  lemma DivMod2To20(a: nat, q: nat, r: nat)
    requires r < 1048576 && a == q * 1048576 + r
    ensures a / 1048576 == q
  {
  }

  /** The value of six hex digits, digit by digit. */
  lemma SixDigitsValue(s: string)
    requires |s| == 6 && forall j :: 0 <= j < 6 ==> IsHexDigit(s[j])
    ensures HexDigitsValue(s) ==
      ((((HexDigitValue(s[0]) * 16 + HexDigitValue(s[1])) * 16 + HexDigitValue(s[2])) * 16 +
         HexDigitValue(s[3])) * 16 + HexDigitValue(s[4])) * 16 + HexDigitValue(s[5])
  {
    assert s[..1][..0] == [];
    assert HexDigitsValue(s[..1]) == HexDigitValue(s[0]);
    assert s[..2][..1] == s[..1];
    assert HexDigitsValue(s[..2]) == HexDigitsValue(s[..1]) * 16 + HexDigitValue(s[1]);
    assert s[..3][..2] == s[..2];
    assert HexDigitsValue(s[..3]) == HexDigitsValue(s[..2]) * 16 + HexDigitValue(s[2]);
    assert s[..4][..3] == s[..3];
    assert HexDigitsValue(s[..4]) == HexDigitsValue(s[..3]) * 16 + HexDigitValue(s[3]);
    assert s[..5][..4] == s[..4];
    assert HexDigitsValue(s[..5]) == HexDigitsValue(s[..4]) * 16 + HexDigitValue(s[4]);
    assert s[..6] == s;
  }

  /** The fields of a six-digit colour are its three high nibbles. */
  lemma SixDigitFields(a: nat, h0: nat, h1: nat, h2: nat, h3: nat, h4: nat, h5: nat)
    requires h0 < 16 && h1 < 16 && h2 < 16 && h3 < 16 && h4 < 16 && h5 < 16
    requires a == ((((h0 * 16 + h1) * 16 + h2) * 16 + h3) * 16 + h4) * 16 + h5
    ensures HighField(a) == 256 * h0 && MiddleField(a) == 16 * h2 && LowField(a) == h4
  {
    var v2 := h0 * 16 + h1;
    var v4 := (v2 * 16 + h2) * 16 + h3;
    var v5 := v4 * 16 + h4;
    DivMod2To20(a, h0, (((h1 * 16 + h2) * 16 + h3) * 16 + h4) * 16 + h5);
    DivMod256(a, v4, h4 * 16 + h5);
    DivMod256(v4, v2, h2 * 16 + h3);
    DivMod16(h2 * 16 + h3, h2, h3);
    DivMod16(a, v5, h5);
    DivMod16(v5, v4, h4);
  }

  /** For a colour `RRGGBB` the result is the hex text of the three high
      nibbles `R1 G1 B1`: a number below 4096. */
  lemma CompressSixDigits(s: string)
    requires |s| == 6 && forall j :: 0 <= j < 6 ==> IsHexDigit(s[j])
    ensures var v := 256 * HexDigitValue(s[0]) + 16 * HexDigitValue(s[2]) + HexDigitValue(s[4]);
      v < 4096 && CompressHexColor(s) == Success(HexString(v))
  {
    var a := HexDigitsValue(s);
    SixDigitsValue(s);
    assert s[1] != 'x' && s[1] != 'X';
    assert ParseHex(s) == Some(a);
    SixDigitFields(a, HexDigitValue(s[0]), HexDigitValue(s[1]), HexDigitValue(s[2]),
                   HexDigitValue(s[3]), HexDigitValue(s[4]), HexDigitValue(s[5]));
    FieldsDisjoint(a);
  }

  /** Black compresses to "0". */
  lemma CompressBlack()
    ensures CompressHexColor("000000") == Success("0")
  {
    CompressSixDigits("000000");
  }

  // ---------------------------------------------------------------------------
  // Cell ids by index

  /** Indexing with an index that is out of range (IndexError). */
  datatype IndexError = IndexError(index: int)

  /** Where Python's `xs[i]` looks in a sequence of length `n`: a negative
      index counts from the end. */
  function PyIndex(n: nat, i: int): (r: Option<nat>)
    ensures r.Some? <==> -(n as int) <= i < n
    ensures r.Some? ==> r.value < n && (r.value == i || r.value == i + n)
  {
    if 0 <= i < n then Some(i) else if -(n as int) <= i < 0 then Some(i + n) else None
  }

  /** `[cell_ids[i] for i in indices]`: the ids at the given indices, or the
      first index that is out of range. */
  function GetCellIDs(cellIds: seq<string>, indices: seq<int>): (r: Result<seq<string>, IndexError>)
  {
    if indices == [] then Success([])
    else
      match PyIndex(|cellIds|, indices[0])
      case None => Failure(IndexError(indices[0]))
      case Some(j) =>
        match GetCellIDs(cellIds, indices[1..])
        case Failure(e) => Failure(e)
        case Success(rest) => Success([cellIds[j]] + rest)
  }

  /** `getCellIDs` succeeds exactly when every index is in range, and then
      picks `cell_ids[indices[k]]` at each position `k`; otherwise it reports
      the first index out of range. */
  lemma {:induction false} GetCellIDsSpec(cellIds: seq<string>, indices: seq<int>)
    ensures GetCellIDs(cellIds, indices).Success? <==>
      forall k :: 0 <= k < |indices| ==> PyIndex(|cellIds|, indices[k]).Some?
    ensures var r := GetCellIDs(cellIds, indices);
      r.Success? ==> (|r.value| == |indices| &&
        forall k :: 0 <= k < |indices| ==> r.value[k] == cellIds[PyIndex(|cellIds|, indices[k]).value])
    ensures var r := GetCellIDs(cellIds, indices);
      r.Failure? ==> exists k :: (0 <= k < |indices| && r.error == IndexError(indices[k]) &&
        PyIndex(|cellIds|, indices[k]).None? &&
        forall l :: 0 <= l < k ==> PyIndex(|cellIds|, indices[l]).Some?)
  {
    if indices != [] {
      GetCellIDsSpec(cellIds, indices[1..]);
      var r := GetCellIDs(cellIds, indices);
      if PyIndex(|cellIds|, indices[0]).Some? {
        var tail := GetCellIDs(cellIds, indices[1..]);
        if tail.Failure? {
          var k' :| 0 <= k' < |indices[1..]| && tail.error == IndexError(indices[1..][k']) &&
            PyIndex(|cellIds|, indices[1..][k']).None? &&
            forall l :: 0 <= l < k' ==> PyIndex(|cellIds|, indices[1..][l]).Some?;
          assert r.error == IndexError(indices[k' + 1]);
          assert forall l :: 0 < l < k' + 1 ==> indices[l] == indices[1..][l - 1];
        } else {
          forall k | 0 <= k < |indices| ensures PyIndex(|cellIds|, indices[k]).Some? {
            if k > 0 {
              assert indices[k] == indices[1..][k - 1];
            }
          }
        }
      } else {
        assert r.error == IndexError(indices[0]);
      }
    }
  }

  // ---------------------------------------------------------------------------
  // translateLassoSelection

  /** `translateLassoSelection`: the destination indices whose cell id is
      among the selected source cells' ids, in increasing order. */
  function TranslateLassoSelection(srcIds: seq<string>, destIds: seq<string>, indices: seq<int>)
    : Result<seq<nat>, IndexError>
  {
    match GetCellIDs(srcIds, indices)
    case Failure(e) => Failure(e)
    case Success(selected) =>
      var selectedSet := set k | 0 <= k < |selected| :: selected[k];
      Success(Positions(destIds, x => x in selectedSet))
  }

  /** The translated selection holds, in strictly increasing order, exactly
      the destination indices whose id equals the id of some selected source
      cell; it fails exactly when a source index is out of range. */
  lemma TranslateLassoSpec(srcIds: seq<string>, destIds: seq<string>, indices: seq<int>)
    ensures var r := TranslateLassoSelection(srcIds, destIds, indices);
      r.Failure? <==> exists k :: 0 <= k < |indices| && PyIndex(|srcIds|, indices[k]).None?
    ensures var r := TranslateLassoSelection(srcIds, destIds, indices);
      r.Success? ==>
        (forall k, l :: 0 <= k < l < |r.value| ==> r.value[k] < r.value[l]) &&
        (forall j :: j in r.value <==> (0 <= j < |destIds| &&
          exists k :: 0 <= k < |indices| && destIds[j] == srcIds[PyIndex(|srcIds|, indices[k]).value]))
  {
    GetCellIDsSpec(srcIds, indices);
    var r := TranslateLassoSelection(srcIds, destIds, indices);
    if r.Success? {
      var selected := GetCellIDs(srcIds, indices).value;
      var selectedSet := set k | 0 <= k < |selected| :: selected[k];
      assert r.value == Positions(destIds, x => x in selectedSet);
      forall j ensures j in r.value <==> (0 <= j < |destIds| &&
          exists k :: 0 <= k < |indices| && destIds[j] == srcIds[PyIndex(|srcIds|, indices[k]).value])
      {
        if j in r.value {
          var p :| 0 <= p < |r.value| && r.value[p] == j;
          assert destIds[j] in selectedSet;
          var k :| 0 <= k < |selected| && selected[k] == destIds[j];
          assert destIds[j] == srcIds[PyIndex(|srcIds|, indices[k]).value];
        }
        if 0 <= j < |destIds| && exists k :: 0 <= k < |indices| && destIds[j] == srcIds[PyIndex(|srcIds|, indices[k]).value] {
          var k :| 0 <= k < |indices| && destIds[j] == srcIds[PyIndex(|srcIds|, indices[k]).value];
          assert selected[k] == destIds[j];
          assert destIds[j] in selectedSet;
        }
      }
    }
  }
}
