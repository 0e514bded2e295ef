/** The byte framing of the CPace exchange: a LEB128 length in front of every part
    (section 6.3 of draft-irtf-cfrg-cpace-21), and the generator string built from it
    (section 8.1 of the same draft). */
module Framing {
  import opened Wrappers
  import Lists

  type byte = b: int | 0 <= b < 256

  type bytes = seq<byte>

  /** H.s_in_bytes for SHA-512. */
  const S_IN_BYTES: nat := 128

  // ----- what the framing writes

  /** The LEB128 form of a length: seven bits at a time, least significant first,
      with the top bit set on every byte but the last. */
  function Leb128(n: nat): bytes {
    if n < 128 then [n] else [n % 128 + 128] + Leb128(n / 128)
  }

  function Framed(data: bytes): bytes {
    Leb128(|data|) + data
  }

  function LVCat(parts: seq<bytes>): bytes {
    if parts == [] then [] else Framed(parts[0]) + LVCat(parts[1..])
  }

  /** The loop that writes the length a group of seven bits at a time. */
  method PrependLen(data: bytes) returns (out: bytes)
    ensures out == Framed(data)
  {
    out := [];
    var length: nat := |data|;
    while true
      invariant out + Leb128(length) == Leb128(|data|)
      decreases length
    {
      if length < 128 {
        out := out + [length];
      } else {
        assert out + Leb128(length) == (out + [length % 128 + 128]) + Leb128(length / 128);
        out := out + [length % 128 + 128];
      }
      length := length / 128;
      if length == 0 {
        break;
      }
    }
    return out + data;
  }

  /** The loop that appends one framed part after another. */
  method ConcatFramed(parts: seq<bytes>) returns (out: bytes)
    ensures out == LVCat(parts)
  {
    out := [];
    for i := 0 to |parts|
      invariant out + LVCat(parts[i..]) == LVCat(parts)
    {
      var framed := PrependLen(parts[i]);
      assert out + LVCat(parts[i..]) == (out + framed) + LVCat(parts[i + 1..]);
      out := out + framed;
    }
  }

  // ----- reading it back

  /** Reads one LEB128 length: its value and the bytes after it. */
  function ReadLen(s: bytes): Option<(nat, bytes)> {
    if s == [] then None
    else if s[0] < 128 then Some((s[0], s[1..]))
    else match ReadLen(s[1..])
      case None => None
      case Some((high, rest)) => Some((s[0] - 128 + 128 * high, rest))
  }

  /** Reads one framed part and returns it with what follows. */
  function ReadPart(s: bytes): Option<(bytes, bytes)> {
    match ReadLen(s)
    case None => None
    case Some((n, rest)) => if n <= |rest| then Some((rest[..n], rest[n..])) else None
  }

  /** Reads a given number of framed parts. */
  function ReadParts(s: bytes, count: nat): Option<(seq<bytes>, bytes)>
    decreases count
  {
    if count == 0 then Some(([], s))
    else match ReadPart(s)
      case None => None
      case Some((part, rest)) =>
        match ReadParts(rest, count - 1)
        case None => None
        case Some((parts, tail)) => Some(([part] + parts, tail))
  }

  lemma {:induction false} ReadLenUndoesLeb128(n: nat, tail: bytes)
    ensures ReadLen(Leb128(n) + tail) == Some((n, tail))
  {
    if n < 128 {
      assert (Leb128(n) + tail)[1..] == tail;
    } else {
      ReadLenUndoesLeb128(n / 128, tail);
      Lists.AppendAssociates([n % 128 + 128], Leb128(n / 128), tail);
      assert (Leb128(n) + tail)[1..] == Leb128(n / 128) + tail;
    }
  }

  lemma ReadPartUndoesFramed(data: bytes, tail: bytes)
    ensures ReadPart(Framed(data) + tail) == Some((data, tail))
  {
    ReadLenUndoesLeb128(|data|, data + tail);
    Lists.AppendAssociates(Leb128(|data|), data, tail);
  }

  /** Decoding undoes encoding, whatever follows the parts. */
  lemma {:induction false} ReadPartsUndoesLVCat(parts: seq<bytes>, tail: bytes)
    ensures ReadParts(LVCat(parts) + tail, |parts|) == Some((parts, tail))
  {
    if parts == [] {
      assert LVCat(parts) + tail == tail;
    } else {
      var rest := LVCat(parts[1..]) + tail;
      Lists.AppendAssociates(Framed(parts[0]), LVCat(parts[1..]), tail);
      assert LVCat(parts) + tail == Framed(parts[0]) + rest;
      ReadPartUndoesFramed(parts[0], rest);
      ReadPartsUndoesLVCat(parts[1..], tail);
      assert ReadParts(LVCat(parts) + tail, |parts|) == Some(([parts[0]] + parts[1..], tail));
      assert parts == [parts[0]] + parts[1..];
    }
  }

  // ----- unique decodability

  /** Two lists of parts, of any lengths, frame to the same bytes only when they are the
      same list. */
  lemma {:induction false} LVCatInjective(p: seq<bytes>, q: seq<bytes>)
    requires LVCat(p) == LVCat(q)
    ensures p == q
  {
    if p == [] || q == [] {
      assert |LVCat(p)| == |LVCat(q)| == 0;
    } else {
      ReadPartUndoesFramed(p[0], LVCat(p[1..]));
      ReadPartUndoesFramed(q[0], LVCat(q[1..]));
      LVCatInjective(p[1..], q[1..]);
      assert p == [p[0]] + p[1..];
      assert q == [q[0]] + q[1..];
    }
  }

  /** The same with trailing bytes, once the number of parts is fixed: this is what lets
      several framed groups be written after one another without a separator. */
  lemma LVCatInjectiveWithTail(p: seq<bytes>, q: seq<bytes>, s: bytes, t: bytes)
    requires |p| == |q| && LVCat(p) + s == LVCat(q) + t
    ensures p == q && s == t
  {
    ReadPartsUndoesLVCat(p, s);
    ReadPartsUndoesLVCat(q, t);
  }

  /** Framing two lists one after the other is framing the joined list, so a transcript
      written message by message is a single framed list. */
  lemma {:induction false} LVCatAppend(p: seq<bytes>, q: seq<bytes>)
    ensures LVCat(p + q) == LVCat(p) + LVCat(q)
  {
    if p == [] {
      assert p + q == q;
    } else {
      LVCatAppend(p[1..], q);
      assert (p + q)[1..] == p[1..] + q;
      Lists.AppendAssociates(Framed(p[0]), LVCat(p[1..]), LVCat(q));
    }
  }

  // ----- the generator string

  function Zeros(n: nat): bytes {
    seq(n, _ => 0)
  }

  /** The zero padding that fills the rest of the first hash block. */
  function ZeroPad(dsi: bytes, prs: bytes, sInBytes: nat): nat {
    var room := sInBytes - 1 - |Framed(prs)| - |Framed(dsi)|;
    if room < 0 then 0 else room
  }

  function GeneratorString(dsi: bytes, prs: bytes, ci: bytes, sid: bytes, sInBytes: nat): bytes {
    LVCat([dsi, prs, Zeros(ZeroPad(dsi, prs, sInBytes)), ci, sid])
  }

  /** The generator string determines every input that went into it. */
  lemma GeneratorStringInjective(dsi: bytes, prs: bytes, ci: bytes, sid: bytes,
                                 dsi': bytes, prs': bytes, ci': bytes, sid': bytes, sInBytes: nat)
    requires GeneratorString(dsi, prs, ci, sid, sInBytes) == GeneratorString(dsi', prs', ci', sid', sInBytes)
    ensures dsi == dsi' && prs == prs' && ci == ci' && sid == sid'
  {
    var p := [dsi, prs, Zeros(ZeroPad(dsi, prs, sInBytes)), ci, sid];
    var q := [dsi', prs', Zeros(ZeroPad(dsi', prs', sInBytes)), ci', sid'];
    LVCatInjective(p, q);
    assert p[0] == q[0] && p[1] == q[1] && p[3] == q[3] && p[4] == q[4];
  }

  /** The channel identifier starts on the second hash block exactly when the framed
      domain separator and password fit in front of it with a byte to spare. */
  lemma ChannelIdentifierOffset(dsi: bytes, prs: bytes, ci: bytes, sid: bytes)
    ensures var front := LVCat([dsi, prs, Zeros(ZeroPad(dsi, prs, S_IN_BYTES))]);
            && GeneratorString(dsi, prs, ci, sid, S_IN_BYTES) == front + LVCat([ci, sid])
            && (|front| == 128 <==> |Framed(dsi)| + |Framed(prs)| <= 127)
            && var room := 127 - |Framed(dsi)| - |Framed(prs)|;
               front == LVCat([dsi, prs]) + Framed(seq(if room < 0 then 0 else room, _ => 0))
  {
    var zeros := Zeros(ZeroPad(dsi, prs, S_IN_BYTES));
    LVCatAppend([dsi, prs, zeros], [ci, sid]);
    assert [dsi, prs, zeros] + [ci, sid] == [dsi, prs, zeros, ci, sid];
    LVCatOfThree(dsi, prs, zeros);
    assert |Framed(zeros)| == 1 + |zeros|;
    LVCatAppend([dsi, prs], [zeros]);
    assert [dsi, prs] + [zeros] == [dsi, prs, zeros];
    var one: seq<bytes> := [zeros];
    assert one[1..] == [] && LVCat(one) == Framed(zeros) + [];
  }

  lemma LVCatOfThree(a: bytes, b: bytes, c: bytes)
    ensures |LVCat([a, b, c])| == |Framed(a)| + |Framed(b)| + |Framed(c)|
  {
    LVCatAppend([a], [b, c]);
    LVCatAppend([b], [c]);
    assert [a] + [b, c] == [a, b, c];
    assert [b] + [c] == [b, c];
  }
}
