/** What is written to the output stream comes back from the input stream. */
module BitstreamRoundTrip {
  import opened Bits
  import Out = OutputBitstream
  import In = InputBitstream

  /** A value to be written in a fixed number of bits. */
  datatype Field = Field(value: nat, width: nat)

  ghost predicate Fits(fields: seq<Field>) {
    forall i :: 0 <= i < |fields| ==> fields[i].width <= 32 && fields[i].value < Pow2(fields[i].width)
  }

  ghost function Encode(fields: seq<Field>): seq<bool> {
    if fields == [] then [] else BitsOf(fields[0].value, fields[0].width) + Encode(fields[1..])
  }

  lemma {:induction false} EncodeAppend(fields: seq<Field>, f: Field)
    ensures Encode(fields + [f]) == Encode(fields) + BitsOf(f.value, f.width)
  {
    if fields == [] {
      assert [f][1..] == [] && [] + [f] == [f];
    } else {
      EncodeAppend(fields[1..], f);
      assert (fields + [f])[1..] == fields[1..] + [f];
    }
  }

  method WriteFields(out: Out.OutputBitstream, fields: seq<Field>)
    requires out.Valid() && Fits(fields)
    modifies out
    ensures out.Valid() && out.Contents() == old(out.Contents()) + Encode(fields)
  {
    hide BitsOf, Encode, Pow2;
    ghost var s := out.Contents();
    NoFields();
    assert fields[..0] == [] && s + [] == s;
    for i := 0 to |fields|
      invariant out.Valid() && out.Contents() == s + Encode(fields[..i])
    {
      out.Write(fields[i].value, fields[i].width);
      EncodeAppend(fields[..i], fields[i]);
      assert fields[..i + 1] == fields[..i] + [fields[i]];
      Regrouped(s, Encode(fields[..i]), BitsOf(fields[i].value, fields[i].width));
    }
    assert fields[..|fields|] == fields;
  }

  lemma NoFields()
    ensures Encode([]) == []
  {
  }

  /** Reads with the given widths; `fields` is what the stream is known to start with. */
  method ReadFields(inp: In.InputBitstream, widths: seq<nat>, ghost fields: seq<Field>, ghost rest: seq<bool>)
    returns (values: seq<nat>)
    requires inp.Valid() && Fits(fields) && inp.Rest() == Encode(fields) + rest
    requires |widths| == |fields| && forall i :: 0 <= i < |fields| ==> widths[i] == fields[i].width
    modifies inp
    ensures inp.Valid() && inp.Rest() == rest
    ensures |values| == |fields| && forall i :: 0 <= i < |fields| ==> values[i] == fields[i].value
  {
    hide BitsOf, Pow2;
    values := [];
    for i := 0 to |widths|
      invariant inp.Valid() && inp.Rest() == Encode(fields[i..]) + rest
      invariant |values| == i && forall j :: 0 <= j < i ==> values[j] == fields[j].value
    {
      ghost var f := fields[i];
      assert fields[i..][1..] == fields[i + 1..];
      Regrouped(BitsOf(f.value, f.width), Encode(fields[i + 1..]), rest);
      var r := inp.Read(widths[i]);
      SameField(f.value, r, f.width, Encode(fields[i + 1..]) + rest, inp.Rest());
      values := values + [r];
    }
  }

  /** Write and align: the bytes of the encoding, filled up with ones or zeros. */
  method WriteAligned(fields: seq<Field>, ones: bool) returns (bytes: seq<Byte>)
    requires Fits(fields)
    ensures BitsOfBytes(bytes) == Encode(fields) + Fill(ones, (8 - |Encode(fields)| % 8) % 8)
  {
    hide Encode, BitsOf, BitsOfBytes, Fill, Out.Packed, Out.Clean;
    var out := new Out.OutputBitstream();
    WriteFields(out, fields);
    assert out.Contents() == Encode(fields);
    PadIs(|Encode(fields)|, out.GetNumBitsUntilByteAligned());
    if ones {
      out.WriteAlignOne();
    } else {
      out.WriteAlignZero();
    }
    Aligned(out);
    bytes := out.fifo;
  }

  /** Write, align, hand the bytes over, read back: the same values. */
  method RoundTrip(fields: seq<Field>, ones: bool) returns (values: seq<nat>)
    requires Fits(fields)
    ensures |values| == |fields| && forall i :: 0 <= i < |fields| ==> values[i] == fields[i].value
  {
    hide Encode, BitsOf, BitsOfBytes, Fill;
    var bytes := WriteAligned(fields, ones);
    var inp := new In.InputBitstream(bytes);
    var widths := seq(|fields|, i requires 0 <= i < |fields| => fields[i].width);
    values := ReadFields(inp, widths, fields, Fill(ones, (8 - |Encode(fields)| % 8) % 8));
  }

  lemma PadIs(len: nat, pad: nat)
    requires pad < 8 && (len + pad) % 8 == 0
    ensures pad == (8 - len % 8) % 8
  {
  }

  lemma Aligned(out: Out.OutputBitstream)
    requires out.Valid() && out.numHeld == 0
    ensures out.Contents() == BitsOfBytes(out.fifo)
  {
  }

  /** Write, then mark the end with a one and zeros up to the boundary. */
  method WriteMarked(fields: seq<Field>) returns (bytes: seq<Byte>)
    requires Fits(fields)
    ensures BitsOfBytes(bytes) == Encode(fields) + ([true] + Fill(false, 7 - |Encode(fields)| % 8))
  {
    hide Encode, BitsOf, BitsOfBytes, Fill, Out.Packed, Out.Clean;
    var out := new Out.OutputBitstream();
    WriteFields(out, fields);
    assert out.Contents() == Encode(fields);
    out.WriteByteAlignment();
    Regrouped(Encode(fields), [true], Fill(false, 7 - |Encode(fields)| % 8));
    Aligned(out);
    bytes := out.fifo;
  }

  /** writeByteAlignment is what readByteAlignment expects, at every alignment. */
  method AlignmentRoundTrip(fields: seq<Field>) returns (values: seq<nat>, skipped: nat)
    requires Fits(fields)
    ensures |values| == |fields| && forall i :: 0 <= i < |fields| ==> values[i] == fields[i].value
    ensures 1 <= skipped <= 8 && (|Encode(fields)| + skipped) % 8 == 0
  {
    hide Encode, BitsOf, BitsOfBytes, Fill;
    var bytes := WriteMarked(fields);
    ghost var mark := [true] + Fill(false, 7 - |Encode(fields)| % 8);
    var inp := new In.InputBitstream(bytes);
    var widths := seq(|fields|, i requires 0 <= i < |fields| => fields[i].width);
    values := ReadFields(inp, widths, fields, mark);
    skipped := inp.ReadByteAlignment();
  }

  // ---------- whole runs of the writer

  datatype Op = Put(field: Field) | AlignOne | AlignZero | Sub(ops: seq<Op>)

  ghost predicate Allowed(ops: seq<Op>) {
    forall i :: 0 <= i < |ops| ==>
      match ops[i]
      case Put(f) => f.width <= 32 && f.value < Pow2(f.width)
      case Sub(inner) => Allowed(inner)
      case _ => true
  }

  /** The bits after a run, starting from s: plain concatenation. */
  ghost function After(s: seq<bool>, ops: seq<Op>): seq<bool>
    decreases ops
  {
    if ops == [] then s else
    After(match ops[0]
          case Put(f) => s + BitsOf(f.value, f.width)
          case AlignOne => s + Fill(true, (8 - |s| % 8) % 8)
          case AlignZero => s + Fill(false, (8 - |s| % 8) % 8)
          case Sub(inner) => s + After([], inner),
          ops[1..])
  }

  /** Any run of write, writeAlignOne, writeAlignZero and addSubstream, substreams built the same way
      and appended at any alignment: the stream holds the concatenation, and its bit count is its length. */
  method Run(out: Out.OutputBitstream, ops: seq<Op>)
    requires out.Valid() && Allowed(ops)
    modifies out
    ensures out.Valid() && out.Contents() == After(old(out.Contents()), ops)
    ensures out.GetNumberOfWrittenBits() == |After(old(out.Contents()), ops)|
    decreases ops
  {
    hide BitsOf, BitsOfBytes, Fill, Pow2;
    if ops == [] {
      return;
    }
    match ops[0] {
      case Put(f) => out.Write(f.value, f.width);
      case AlignOne =>
        PadIs(|out.Contents()|, out.GetNumBitsUntilByteAligned());
        out.WriteAlignOne();
      case AlignZero =>
        PadIs(|out.Contents()|, out.GetNumBitsUntilByteAligned());
        out.WriteAlignZero();
      case Sub(inner) =>
        var sub := new Out.OutputBitstream();
        Run(sub, inner);
        out.AddSubstream(sub);
    }
    Run(out, ops[1..]);
  }
}
