/** H264Parser::findNal: the extent of the first NAL unit of an Annex B byte stream. */
module NalParser {
  import opened Bytes

  /** The pair of pointers findNal returns, as offsets: first byte and last byte. */
  datatype Nal = NoNal | Nal(first: nat, last: int)

  // -- What a start code is ---------------------------------------------------------------

  predicate Code3(data: seq<byte>, p: int) {
    0 <= p && p + 3 <= |data| && data[p] == 0 && data[p + 1] == 0 && data[p + 2] == 1
  }

  predicate Code4(data: seq<byte>, p: int) {
    0 <= p && p + 4 <= |data| && data[p] == 0 && data[p + 1] == 0 && data[p + 2] == 0 && data[p + 3] == 1
  }

  predicate Code(data: seq<byte>, p: int, len: nat) {
    (len == 3 && Code3(data, p)) || (len == 4 && Code4(data, p))
  }

  /** `p` is the first position up to |data| - 4, where the scan ends, with a code of either length. */
  ghost predicate FirstCode(data: seq<byte>, p: int) {
    && 0 <= p <= |data| - 4 && (Code3(data, p) || Code4(data, p))
    && forall q | 0 <= q < p :: !Code3(data, q) && !Code4(data, q)
  }

  ghost predicate NoCode(data: seq<byte>, from: int, to: int, len: nat) {
    forall q | from <= q < to :: !Code(data, q, len)
  }

  /** The last byte before the next start code of the same length, or the last byte of all. */
  ghost predicate EndsAt(data: seq<byte>, p: int, len: nat, last: int) {
    || (last == |data| - 1 && NoCode(data, p + 1, |data| - 3, len))
    || (p < last + 1 <= |data| - 4 && Code(data, last + 1, len) && NoCode(data, p + 1, last + 1, len))
  }

  /** What findNal promises, for every input. */
  ghost predicate Found(data: seq<byte>, r: Nal) {
    if |data| < 5 || forall p :: 0 <= p <= |data| - 4 ==> !Code3(data, p) && !Code4(data, p) then r == NoNal
    else exists p :: FirstCode(data, p) && FoundAt(data, p, r)
  }

  ghost predicate FoundAt(data: seq<byte>, p: int, r: Nal)
    requires FirstCode(data, p)
  {
    if Code3(data, p) then r.Nal? && r.first == p + 3 && EndsAt(data, p, 3, r.last)
    else if p == |data| - 4 then r == NoNal
    else r.Nal? && r.first == p + 4 && EndsAt(data, p, 4, r.last)
  }

  // -- The scan ---------------------------------------------------------------------------

  /** The three-byte window `prefix`, indexed modulo 3, holds data[pos..pos + 3]. */
  ghost predicate Window(prefix: array<byte>, data: seq<byte>, pos: nat)
    reads prefix
  {
    prefix.Length == 3 && pos + 3 <= |data|
    && prefix[pos % 3] == data[pos] && prefix[(pos + 1) % 3] == data[pos + 1] && prefix[(pos + 2) % 3] == data[pos + 2]
  }

  /** The test of findNal: two zeros and `third` in the window. */
  predicate Holds(prefix: array<byte>, pos: nat, third: byte)
    requires prefix.Length == 3
    reads prefix
  {
    prefix[pos % 3] == 0 && prefix[(pos + 1) % 3] == 0 && prefix[(pos + 2) % 3] == third
  }

  lemma {:induction false} FirstWindow(prefix: array<byte>, data: seq<byte>)
    requires prefix.Length == 3 <= |data| && prefix[0] == data[0] && prefix[1] == data[1] && prefix[2] == data[2]
    ensures Window(prefix, data, 0)
  {
  }

  lemma {:induction false} Looked(prefix: array<byte>, data: seq<byte>, pos: nat)
    requires Window(prefix, data, pos)
    ensures Holds(prefix, pos, 1) <==> Code3(data, pos)
    ensures Holds(prefix, pos, 0) <==> data[pos] == 0 && data[pos + 1] == 0 && data[pos + 2] == 0
  {
  }

  /** The window moves on by one byte. */
  method Rotate(prefix: array<byte>, data: array<byte>, pos: nat)
    requires prefix != data && Window(prefix, data[..], pos) && pos + 3 < data.Length
    modifies prefix
    ensures Window(prefix, data[..], pos + 1)
  {
    prefix[pos % 3] := data[pos + 3];
  }

  method FindNal(data: array<byte>) returns (r: Nal)
    ensures Found(data[..], r)
  {
    hide Window, Holds;
    var size := data.Length;
    if size < 5 {
      return NoNal;
    }
    ghost var d := data[..];
    var first, second := -1, size - 1;
    var startCode, pos := 0, 0;
    var prefix := new byte[3];
    prefix[0], prefix[1], prefix[2] := data[0], data[1], data[2];
    FirstWindow(prefix, d);
    size := size - 3;
    var at := 2;
    while size > 0
      invariant data[..] == d && fresh(prefix)
      invariant 0 <= pos && at == pos + 2 && size == |d| - 3 - pos && second == |d| - 1
      invariant Window(prefix, d, pos)
      invariant first == -1 ==> startCode == 0 && forall q | 0 <= q < pos :: !Code3(d, q) && !Code4(d, q)
      invariant first != -1 ==> (startCode == 3 || startCode == 4)
      invariant first != -1 ==> FirstCode(d, first - startCode) && Code(d, first - startCode, startCode)
      invariant first != -1 ==> first - startCode < pos && NoCode(d, first - startCode + 1, pos, startCode)
      invariant first != -1 && startCode == 4 ==> first - startCode < |d| - 4
    {
      size := size - 1;
      Looked(prefix, d, pos);
      if Holds(prefix, pos, 1) {
        if first == -1 {
          first := at + 1;
          startCode := 3;
        } else if startCode == 3 {
          second := at - 3;
          break;
        }
      } else if Holds(prefix, pos, 0) {
        if data[at + 1] == 1 {
          if first == -1 {
            if size >= 1 {
              first := at + 2;
            } else {
              assert FirstCode(d, pos) && FoundAt(d, pos, NoNal);
              break;
            }
            startCode := 4;
          } else if startCode == 4 {
            second := at - 3;
            break;
          }
        }
      }
      at := at + 1;
      Rotate(prefix, data, pos);
      pos := pos + 1;
    }
    if first == -1 {
      return NoNal;
    }
    assert FoundAt(d, first - startCode, Nal(first, second));
    return Nal(first, second);
  }

  // -- findNal undoes the framing of Annex B ----------------------------------------------

  /** The promise leaves no choice. */
  lemma {:induction false} FoundIsUnique(data: seq<byte>, r: Nal, s: Nal)
    requires Found(data, r) && Found(data, s)
    ensures r == s
  {
    if |data| >= 5 && exists p :: 0 <= p <= |data| - 4 && (Code3(data, p) || Code4(data, p)) {
      var p :| FirstCode(data, p) && FoundAt(data, p, r);
      var q :| FirstCode(data, q) && FoundAt(data, q, s);
      assert p == q;
    }
  }

  /** Two four-byte codes around a NAL unit: its extent is found, if it holds no 00 00 00 and does
      not end in 00, as section B.1 of ITU-T H.264 requires of a NAL unit. */
  lemma {:induction false} FourByteFraming(nal: seq<byte>, rest: seq<byte>, r: Nal)
    requires forall k | 0 <= k < |nal| - 2 :: !(nal[k] == 0 && nal[k + 1] == 0 && nal[k + 2] == 0)
    requires nal != [] ==> nal[|nal| - 1] != 0
    requires Found([0, 0, 0, 1] + nal + [0, 0, 0, 1] + rest, r)
    ensures r == Nal(4, 4 + |nal| - 1)
  {
    var data := [0, 0, 0, 1] + nal + [0, 0, 0, 1] + rest;
    assert forall k | 0 <= k < |nal| :: data[4 + k] == nal[k];
    var e := 4 + |nal|;
    assert data[e] == 0 && data[e + 1] == 0 && data[e + 2] == 0 && data[e + 3] == 1;
    assert Code4(data, 0) && Code(data, e, 4);
    forall q | 1 <= q < e ensures !Code(data, q, 4) {
      if 4 <= q && q + 2 < e {
        assert !(nal[q - 4] == 0 && nal[q - 3] == 0 && nal[q - 2] == 0);
      } else if nal != [] {
        assert data[e - 1] == nal[|nal| - 1] != 0;
      }
    }
    assert FirstCode(data, 0);
    FoundFromStart(data, 4, e, r);
  }

  lemma {:induction false} FoundFromStart(data: seq<byte>, len: nat, e: nat, r: Nal)
    requires |data| >= 5 && FirstCode(data, 0) && (len == 3 || len == 4) && Code(data, 0, len)
    requires 0 < e <= |data| - 4 && Code(data, e, len) && NoCode(data, 1, e, len)
    requires Found(data, r)
    ensures r == Nal(len, e - 1)
  {
    var p :| FirstCode(data, p) && FoundAt(data, p, r);
    assert p == 0;
    assert EndsAt(data, 0, len, r.last);
  }

  /** The same for three-byte codes: the extent is found, if the unit holds no 00 00 01, exactly
      when something follows the second code; the scan stops before a code in the last three bytes. */
  lemma {:induction false} ThreeByteFraming(nal: seq<byte>, rest: seq<byte>, r: Nal)
    requires forall k | 0 <= k < |nal| - 2 :: !(nal[k] == 0 && nal[k + 1] == 0 && nal[k + 2] == 1)
    requires Found([0, 0, 1] + nal + [0, 0, 1] + rest, r)
    ensures r == Nal(3, 3 + |nal| - 1) <==> rest != []
  {
    var data := [0, 0, 1] + nal + [0, 0, 1] + rest;
    assert forall k | 0 <= k < |nal| :: data[3 + k] == nal[k];
    var e := 3 + |nal|;
    assert data[e] == 0 && data[e + 1] == 0 && data[e + 2] == 1;
    assert Code3(data, 0) && Code(data, e, 3) && FirstCode(data, 0);
    forall q | 1 <= q < e ensures !Code(data, q, 3) {
      if 3 <= q && q + 2 < e {
        assert !(nal[q - 3] == 0 && nal[q - 2] == 0 && nal[q - 1] == 1);
      }
    }
    if rest != [] {
      FoundFromStart(data, 3, e, r);
    } else {
      var p :| FirstCode(data, p) && FoundAt(data, p, r);
      assert p == 0 && EndsAt(data, 0, 3, r.last);
    }
  }

  /** The last unit of a stream: behind bytes without a code, with no other code of its length behind
      it up to where the scan ends, it reaches to the last byte; a four-byte code with nothing behind
      it is none. */
  lemma {:induction false} LastUnit(data: seq<byte>, p: nat, r: Nal)
    requires |data| >= 5 && p + 4 <= |data| && Found(data, r)
    requires forall q | 0 <= q < p :: !Code3(data, q) && !Code4(data, q)
    ensures Code4(data, p) && NoCode(data, p + 1, |data| - 3, 4) ==>
      r == if p + 4 == |data| then NoNal else Nal(p + 4, |data| - 1)
    ensures Code3(data, p) && NoCode(data, p + 1, |data| - 3, 3) ==> r == Nal(p + 3, |data| - 1)
  {
    if Code3(data, p) || Code4(data, p) {
      var q :| FirstCode(data, q) && FoundAt(data, q, r);
      assert q == p;
    }
  }

  /** No unit is found in fewer than five bytes, nor where no byte is one. */
  lemma {:induction false} NoUnit(data: seq<byte>, r: Nal)
    requires Found(data, r) && (|data| < 5 || forall k | 0 <= k < |data| :: data[k] != 1)
    ensures r == NoNal
  {
  }
}
