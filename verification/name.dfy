/** Domain names on the wire (sections 3.1 and 4.1.2 of RFC 1035): each
    dot-separated label as one length byte followed by the label's bytes,
    and a single zero byte at the end.

    This codec has no compression pointers: a non-zero length byte is always
    the length of a plain label, whatever its top two bits.
 */
module DomainName {
  import opened Wire

  /* ---------- Text of labels: ASCII characters and their bytes ---------- */

  /** Every character is 7-bit ASCII, so its UTF-8 form is the one byte of its code. */
  predicate IsAscii(s: string) {
    forall i :: 0 <= i < |s| ==> s[i] as int < 0x80
  }

  predicate IsAsciiBytes(b: seq<Byte>) {
    forall i :: 0 <= i < |b| ==> b[i] < 0x80
  }

  /** `label.encode("utf-8")` for an ASCII label. */
  function AsciiEncode(s: string): (r: seq<Byte>)
    requires IsAscii(s)
    ensures |r| == |s| && IsAsciiBytes(r)
    ensures forall i :: 0 <= i < |s| ==> r[i] == s[i] as int
  {
    seq(|s|, i requires 0 <= i < |s| => s[i] as int)
  }

  /** `raw.decode('utf-8')` for ASCII bytes. */
  function AsciiDecode(b: seq<Byte>): (r: string)
    requires IsAsciiBytes(b)
    ensures |r| == |b| && IsAscii(r)
    ensures forall i :: 0 <= i < |b| ==> r[i] as int == b[i]
  {
    seq(|b|, i requires 0 <= i < |b| => b[i] as char)
  }

  lemma AsciiRoundTrip(s: string)
    requires IsAscii(s)
    ensures AsciiDecode(AsciiEncode(s)) == s
  {
  }

  /* ---------- Dotted names: str.split('.') and '.'.join ---------- */

  /** `'.'.join(labels)`; the empty list joins to the empty string. */
  function Join(labels: seq<string>): (s: string) {
    if labels == [] then ""
    else if |labels| == 1 then labels[0]
    else labels[0] + "." + Join(labels[1..])
  }

  /** `s.split('.')`: the pieces between the dots, at least one, possibly empty. */
  function Split(s: string): (r: seq<string>)
    ensures |r| >= 1
  {
    if s == [] then [""]
    else
      var rest := Split(s[1..]);
      if s[0] == '.' then [""] + rest
      else [[s[0]] + rest[0]] + rest[1..]
  }

  /** Joining the pieces of a split with dots gives back the string. */
  lemma {:induction false} JoinSplit(s: string)
    ensures Join(Split(s)) == s
  {
    if s != [] {
      JoinSplit(s[1..]);
      var rest := Split(s[1..]);
      if s[0] == '.' {
        assert s == "." + s[1..];
      } else {
        assert s == [s[0]] + s[1..];
        if |rest| > 1 {
          assert Join(rest) == rest[0] + "." + Join(rest[1..]);
        }
      }
    }
  }

  /** No piece of a split holds a dot or is longer than the string. */
  lemma {:induction false} SplitPieces(s: string)
    ensures forall i :: 0 <= i < |Split(s)| ==> '.' !in Split(s)[i] && |Split(s)[i]| <= |s|
  {
    if s != [] {
      SplitPieces(s[1..]);
    }
  }

  /** The pieces of an ASCII string are ASCII. */
  lemma {:induction false} SplitAscii(s: string)
    requires IsAscii(s)
    ensures forall i :: 0 <= i < |Split(s)| ==> IsAscii(Split(s)[i])
  {
    if s != [] {
      SplitAscii(s[1..]);
    }
  }

  /** Splitting at a dot splits the two sides separately. */
  lemma {:induction false} SplitAtDot(a: string, b: string)
    ensures Split(a + "." + b) == Split(a) + Split(b)
  {
    var s := a + "." + b;
    if a == [] {
      assert s[1..] == b;
    } else {
      assert s[0] == a[0] && s[1..] == a[1..] + "." + b;
      SplitAtDot(a[1..], b);
    }
  }

  /** Splitting a join gives back the labels, when none of them holds a dot. */
  lemma {:induction false} SplitJoin(labels: seq<string>)
    requires |labels| >= 1
    requires forall i :: 0 <= i < |labels| ==> '.' !in labels[i]
    ensures Split(Join(labels)) == labels
  {
    SplitDotFree(labels[0]);
    if |labels| > 1 {
      SplitAtDot(labels[0], Join(labels[1..]));
      SplitJoin(labels[1..]);
    }
  }

  /** A string without a dot is a single piece. */
  lemma {:induction false} SplitDotFree(s: string)
    requires '.' !in s
    ensures Split(s) == [s]
  {
    if s != [] {
      assert s == [s[0]] + s[1..];
      SplitDotFree(s[1..]);
    }
  }

  /** No piece of a joined name is longer than the longest label joined. */
  lemma {:induction false} SplitJoinBound(labels: seq<string>, n: nat)
    requires forall i :: 0 <= i < |labels| ==> |labels[i]| <= n
    ensures forall i :: 0 <= i < |Split(Join(labels))| ==> |Split(Join(labels))[i]| <= n
  {
    if |labels| == 1 {
      SplitPieces(labels[0]);
    } else if |labels| > 1 {
      SplitPieces(labels[0]);
      SplitAtDot(labels[0], Join(labels[1..]));
      SplitJoinBound(labels[1..], n);
    }
  }

  /** A join of ASCII labels is ASCII. */
  lemma {:induction false} JoinAscii(labels: seq<string>)
    requires forall i :: 0 <= i < |labels| ==> IsAscii(labels[i])
    ensures IsAscii(Join(labels))
  {
    if |labels| > 1 {
      JoinAscii(labels[1..]);
    }
  }

  /* ---------- The wire form of a label sequence ---------- */

  /** Labels that `encode_domain_name` can write: ASCII, with a length that fits one byte. */
  predicate Encodable(labels: seq<string>) {
    forall i :: 0 <= i < |labels| ==> |labels[i]| < 0x100 && IsAscii(labels[i])
  }

  /** Every label's length fits the one byte that precedes it on the wire. */
  predicate LabelsFit(labels: seq<string>) {
    forall i :: 0 <= i < |labels| ==> |labels[i]| < 0x100
  }

  /** Labels that joining and splitting again gives back: at least one, none holding a dot. */
  predicate Resplits(labels: seq<string>) {
    |labels| >= 1 && forall i :: 0 <= i < |labels| ==> '.' !in labels[i]
  }

  predicate NoEmptyLabel(labels: seq<string>) {
    forall i :: 0 <= i < |labels| ==> |labels[i]| > 0
  }

  /** Each label as its length byte followed by its bytes, in order (no terminator). */
  function LabelBytes(labels: seq<string>): (bytes: seq<Byte>)
    requires Encodable(labels)
  {
    if labels == [] then [] else [|labels[0]|] + AsciiEncode(labels[0]) + LabelBytes(labels[1..])
  }

  /** The sum over the labels of (label length + 1). */
  function Span(labels: seq<string>): (n: nat) {
    if labels == [] then 0 else |labels[0]| + 1 + Span(labels[1..])
  }

  lemma {:induction false} LabelBytesConcat(a: seq<string>, b: seq<string>)
    requires Encodable(a) && Encodable(b)
    ensures Encodable(a + b) && LabelBytes(a + b) == LabelBytes(a) + LabelBytes(b)
    ensures Span(a + b) == Span(a) + Span(b)
  {
    if a == [] {
      assert a + b == b;
    } else {
      assert (a + b)[0] == a[0] && (a + b)[1..] == a[1..] + b;
      LabelBytesConcat(a[1..], b);
    }
  }

  lemma {:induction false} LabelBytesLength(labels: seq<string>)
    requires Encodable(labels)
    ensures |LabelBytes(labels)| == Span(labels)
  {
    if labels != [] {
      LabelBytesLength(labels[1..]);
    }
  }

  /** Name encoding layout: label k starts at the sum of (length + 1) over the
      labels before it, with its length byte and then its bytes. */
  lemma NameLayout(labels: seq<string>, k: nat)
    requires Encodable(labels) && k < |labels|
    ensures var at := Span(labels[..k]);
            && at + 1 + |labels[k]| <= |LabelBytes(labels)|
            && LabelBytes(labels)[at] == |labels[k]|
            && LabelBytes(labels)[at + 1 .. at + 1 + |labels[k]|] == AsciiEncode(labels[k])
  {
    var before, after := labels[..k], labels[k + 1..];
    assert labels == before + [labels[k]] + after;
    LabelBytesConcat(before, [labels[k]]);
    LabelBytesConcat(before + [labels[k]], after);
    LabelBytesLength(before);
    assert LabelBytes([labels[k]]) == [|labels[k]|] + AsciiEncode(labels[k]);
  }

  /* ---------- encode_domain_name ---------- */

  /** What `encode_domain_name(name)` returns: the label bytes of the pieces
      of the name, then a zero byte; OverflowError when a piece is longer
      than 255 characters. */
  function NameEncoding(name: string): (r: Result<seq<Byte>>)
    requires IsAscii(name)
    ensures r.Ok? <==> LabelsFit(Split(name))
    ensures r.Ok? ==> |r.value| == Span(Split(name)) + 1 && r.value[|r.value| - 1] == 0
  {
    var labels := Split(name);
    SplitAscii(name);
    if LabelsFit(labels) then
      LabelBytesLength(labels);
      Ok(LabelBytes(labels) + [0])
    else
      Err(ValueTooLarge)
  }

  /** `encode_domain_name`: appends each label's length byte and bytes in turn. */
  method EncodeDomainName(name: string) returns (r: Result<seq<Byte>>)
    requires IsAscii(name)
    ensures r == NameEncoding(name)
  {
    var labels := Split(name);
    SplitAscii(name);
    var encoded: seq<Byte> := [];
    for i := 0 to |labels|
      invariant Encodable(labels[..i])
      invariant encoded == LabelBytes(labels[..i])
    {
      var piece := labels[i];
      var size :- ToBytes(|piece|, 1);
      assert size == [|piece|];
      AppendLabel(labels, i);
      encoded := encoded + size + AsciiEncode(piece);
    }
    assert labels[..|labels|] == labels;
    return Ok(encoded + [0]);
  }

  /** The label bytes of one more label are its length byte and its bytes, appended. */
  lemma AppendLabel(labels: seq<string>, i: nat)
    requires i < |labels| && Encodable(labels[..i])
    requires |labels[i]| < 0x100 && IsAscii(labels[i])
    ensures Encodable(labels[..i + 1])
    ensures LabelBytes(labels[..i + 1]) == LabelBytes(labels[..i]) + [|labels[i]|] + AsciiEncode(labels[i])
  {
    var piece := labels[i];
    assert labels[..i + 1] == labels[..i] + [piece];
    LabelBytesConcat(labels[..i], [piece]);
    assert LabelBytes([piece]) == [|piece|] + AsciiEncode(piece);
  }

  /* ---------- decode_name ---------- */

  /** The labels `decode_name(data, offset)` collects and the offset it
      returns, or the exception it raises: IndexError when it reads a length
      byte past the end of the buffer, UnicodeDecodeError (here: a byte that
      is not ASCII) in a piece. A piece that runs past the end is cut short
      by the slice and the next length read fails. */
  function ReadLabels(data: seq<Byte>, offset: nat): (r: Result<(seq<string>, nat)>)
    ensures r.Ok? ==> offset < r.value.1 <= |data|
    decreases |data| - offset
  {
    if offset >= |data| then Err(ShortBuffer)
    else if data[offset] == 0 then Ok(([], offset + 1))
    else
      var start := offset + 1;
      var stop := start + data[offset];
      var raw := data[start .. if stop <= |data| then stop else |data|];
      if !IsAsciiBytes(raw) then Err(NotAscii)
      else
        match ReadLabels(data, stop)
        case Err(e) => Err(e)
        case Ok((labels, next)) => Ok(([AsciiDecode(raw)] + labels, next))
  }

  /** Whatever decodes is an encoding: the bytes from the offset to the one
      returned are the label bytes of the decoded labels and a zero byte, and
      those labels are non-empty, ASCII and at most 255 bytes long. */
  lemma {:induction false} DecodedIsEncoding(data: seq<Byte>, offset: nat)
    requires ReadLabels(data, offset).Ok?
    ensures var (labels, next) := ReadLabels(data, offset).value;
            && Encodable(labels) && NoEmptyLabel(labels)
            && data[offset .. next] == LabelBytes(labels) + [0]
    decreases |data| - offset
  {
    if data[offset] != 0 {
      var stop := offset + 1 + data[offset];
      DecodedIsEncoding(data, stop);
      var (rest, next) := ReadLabels(data, stop).value;
      var raw := data[offset + 1 .. stop];
      assert ReadLabels(data, offset).value == ([AsciiDecode(raw)] + rest, next);
      LabelStep(data, offset, stop, next, raw, rest);
    }
  }

  /** One more label in front of decoded labels whose bytes sit from stop to next. */
  lemma LabelStep(data: seq<Byte>, offset: nat, stop: nat, next: nat, raw: seq<Byte>, rest: seq<string>)
    requires offset < stop <= next <= |data| && data[offset] == stop - offset - 1 > 0
    requires raw == data[offset + 1 .. stop] && IsAsciiBytes(raw)
    requires Encodable(rest) && NoEmptyLabel(rest) && data[stop .. next] == LabelBytes(rest) + [0]
    ensures var labels := [AsciiDecode(raw)] + rest;
            && Encodable(labels) && NoEmptyLabel(labels)
            && data[offset .. next] == LabelBytes(labels) + [0]
  {
    var piece := AsciiDecode(raw);
    var labels := [piece] + rest;
    assert labels[0] == piece && labels[1..] == rest;
    assert AsciiEncode(piece) == raw;
    SliceAt(data, offset, stop, next);
    Assoc([data[offset]] + raw, LabelBytes(rest), [0]);
  }

  /** A slice is its first byte, then the bytes up to j, then the rest. */
  lemma SliceAt(s: seq<Byte>, i: nat, j: nat, k: nat)
    requires i < j <= k <= |s|
    ensures s[i .. k] == [s[i]] + s[i + 1 .. j] + s[j .. k]
  {
  }

  /** What `decode_name(data, offset)` returns: the labels joined with dots,
      and the offset just past the zero byte. */
  function ReadName(data: seq<Byte>, offset: nat): (r: Result<(string, nat)>)
    ensures r.Ok? ==> offset < r.value.1 <= |data| && data[r.value.1 - 1] == 0
    ensures r.Ok? ==> IsAscii(r.value.0) && NameEncoding(r.value.0).Ok?
  {
    match ReadLabels(data, offset)
    case Err(e) => Err(e)
    case Ok((labels, next)) =>
      DecodedNameFacts(data, offset);
      ReadLabelsEnds(data, offset);
      Ok((Join(labels), next))
  }

  /** The labels of a successful decode join to a name that can be written again. */
  lemma DecodedNameFacts(data: seq<Byte>, offset: nat)
    requires ReadLabels(data, offset).Ok?
    ensures IsAscii(Join(ReadLabels(data, offset).value.0))
    ensures NameEncoding(Join(ReadLabels(data, offset).value.0)).Ok?
  {
    DecodedIsEncoding(data, offset);
    JoinEncodable(ReadLabels(data, offset).value.0);
  }

  /** A successful label decode stops just past a zero byte. */
  lemma {:induction false} ReadLabelsEnds(data: seq<Byte>, offset: nat)
    requires ReadLabels(data, offset).Ok?
    ensures data[ReadLabels(data, offset).value.1 - 1] == 0
    decreases |data| - offset
  {
    if data[offset] != 0 {
      ReadLabelsEnds(data, offset + 1 + data[offset]);
    }
  }

  /** A name decoded from labels that re-split to themselves encodes back to
      exactly the bytes it was decoded from. */
  lemma ReencodeDecoded(data: seq<Byte>, offset: nat)
    requires ReadLabels(data, offset).Ok? && Resplits(ReadLabels(data, offset).value.0)
    ensures ReadName(data, offset).Ok?
    ensures NameEncoding(ReadName(data, offset).value.0) == Ok(data[offset .. ReadName(data, offset).value.1])
  {
    var (labels, stop) := ReadLabels(data, offset).value;
    assert ReadName(data, offset) == Ok((Join(labels), stop));
    DecodedIsEncoding(data, offset);
    SplitJoin(labels);
    JoinAscii(labels);
  }

  /** Labels that can be written join to a name that can be written. */
  lemma JoinEncodable(labels: seq<string>)
    requires Encodable(labels)
    ensures IsAscii(Join(labels)) && NameEncoding(Join(labels)).Ok?
  {
    JoinAscii(labels);
    SplitJoinBound(labels, 0xFF);
  }

  /** The outcome of the whole decode, given the labels already collected and
      the outcome of the decode from the current offset on. */
  function Resume(labels: seq<string>, r: Result<(seq<string>, nat)>): (resumed: Result<(seq<string>, nat)>) {
    match r
    case Err(e) => Err(e)
    case Ok((more, next)) => Ok((labels + more, next))
  }

  lemma ResumeResume(labels: seq<string>, more: seq<string>, r: Result<(seq<string>, nat)>)
    ensures Resume(labels, Resume(more, r)) == Resume(labels + more, r)
  {
    match r
    case Err(_) =>
    case Ok((rest, _)) =>
      assert labels + (more + rest) == labels + more + rest;
  }

  lemma ResumeNothing(r: Result<(seq<string>, nat)>)
    ensures Resume([], r) == r
  {
    match r
    case Err(_) =>
    case Ok((rest, _)) =>
      assert [] + rest == rest;
  }

  /** One step of decoding a non-empty label at offset at. */
  lemma ReadLabelsStep(data: seq<Byte>, at: nat, raw: seq<Byte>)
    requires at < |data| && data[at] != 0
    requires raw == data[at + 1 .. if at + 1 + data[at] <= |data| then at + 1 + data[at] else |data|]
    ensures !IsAsciiBytes(raw) ==> ReadLabels(data, at) == Err(NotAscii)
    ensures IsAsciiBytes(raw) ==> ReadLabels(data, at) == Resume([AsciiDecode(raw)], ReadLabels(data, at + 1 + data[at]))
  {
  }

  /** `decode_name`: reads length bytes and labels until the zero byte. */
  method DecodeName(data: seq<Byte>, offset: nat) returns (r: Result<(string, nat)>)
    ensures r == ReadName(data, offset)
  {
    var labels: seq<string> := [];
    var pos: nat := offset;
    ResumeNothing(ReadLabels(data, offset));
    while true
      invariant ReadLabels(data, offset) == Resume(labels, ReadLabels(data, pos))
      decreases |data| - pos
    {
      if pos >= |data| {
        return Err(ShortBuffer);
      }
      ghost var at := pos;
      var length := data[pos];
      pos := pos + 1;
      if length == 0 {
        assert ReadLabels(data, at) == Ok(([], pos));
        assert labels + [] == labels;
        assert ReadLabels(data, offset) == Ok((labels, pos));
        break;
      }
      var raw := data[pos .. if pos + length <= |data| then pos + length else |data|];
      ReadLabelsStep(data, at, raw);
      if !IsAsciiBytes(raw) {
        return Err(NotAscii);
      }
      ResumeResume(labels, [AsciiDecode(raw)], ReadLabels(data, pos + length));
      labels := labels + [AsciiDecode(raw)];
      pos := pos + length;
    }
    return Ok((Join(labels), pos));
  }

  /* ---------- Properties ---------- */

  /** Decoding reads back encoded labels, wherever they sit in the buffer and
      whatever follows them, and stops just past their zero byte. */
  lemma {:induction false} ReadLabelsOfEncoding(pre: seq<Byte>, labels: seq<string>, rest: seq<Byte>)
    requires Encodable(labels) && NoEmptyLabel(labels)
    ensures ReadLabels(pre + LabelBytes(labels) + [0] + rest, |pre|)
            == Ok((labels, |pre| + |LabelBytes(labels)| + 1))
    decreases |labels|
  {
    var data := pre + LabelBytes(labels) + [0] + rest;
    if labels == [] {
      assert data[|pre|] == 0;
    } else {
      var piece := labels[0];
      var head := [|piece|] + AsciiEncode(piece);
      FirstLabelAt(pre, labels, rest, data);
      MiddleAt(pre, head, LabelBytes(labels[1..]) + [0] + rest, data);
      assert head[1..] == AsciiEncode(piece);
      ReadLabelsOfEncoding(pre + head, labels[1..], rest);
      AsciiRoundTrip(piece);
      assert [piece] + labels[1..] == labels;
    }
  }

  /** Where the first label of an encoding sits, and what follows it. */
  lemma FirstLabelAt(pre: seq<Byte>, labels: seq<string>, rest: seq<Byte>, data: seq<Byte>)
    requires Encodable(labels) && labels != []
    requires data == pre + LabelBytes(labels) + [0] + rest
    ensures var head := [|labels[0]|] + AsciiEncode(labels[0]);
            && Encodable(labels[1..])
            && data == (pre + head) + LabelBytes(labels[1..]) + [0] + rest
            && data == pre + head + (LabelBytes(labels[1..]) + [0] + rest)
            && |LabelBytes(labels)| == |head| + |LabelBytes(labels[1..])|
  {
    var head := [|labels[0]|] + AsciiEncode(labels[0]);
    var front := pre + head;
    assert LabelBytes(labels) == head + LabelBytes(labels[1..]);
    Assoc(pre, head, LabelBytes(labels[1..]));
    Assoc(front, LabelBytes(labels[1..]) + [0], rest);
    Assoc(front, LabelBytes(labels[1..]), [0]);
  }

  /** The bytes of the middle part of a concatenation. */
  lemma MiddleAt(pre: seq<Byte>, head: seq<Byte>, tail: seq<Byte>, data: seq<Byte>)
    requires data == pre + head + tail && head != []
    ensures data[|pre|] == head[0] && data[|pre| + 1 .. |pre| + |head|] == head[1..]
  {
    assert (pre + head)[|pre| ..] == head;
  }

  lemma Assoc(a: seq<Byte>, b: seq<Byte>, c: seq<Byte>)
    ensures a + (b + c) == a + b + c
  {
  }

  /** The name decoded from the encoded pieces of a name is the name. */
  lemma ReadNameOfPieces(name: string, encoded: seq<Byte>, pre: seq<Byte>, rest: seq<Byte>)
    requires Encodable(Split(name)) && NoEmptyLabel(Split(name))
    requires encoded == LabelBytes(Split(name)) + [0]
    ensures ReadName(pre + encoded + rest, |pre|) == Ok((name, |pre| + |encoded|))
  {
    var labels := Split(name);
    var data := pre + LabelBytes(labels) + [0] + rest;
    assert pre + encoded + rest == data;
    ReadLabelsOfEncoding(pre, labels, rest);
    JoinSplit(name);
    var read := ReadLabels(data, |pre|);
    assert ReadName(data, |pre|) == Ok((Join(read.value.0), read.value.1));
  }

  /** Name round trip: a name whose pieces are non-empty and at most 255
      characters decodes from its encoding, at any offset, to itself, and the
      decode ends exactly where the encoding does. */
  lemma NameRoundTrip(name: string, encoded: seq<Byte>, pre: seq<Byte>, rest: seq<Byte>)
    requires IsAscii(name) && NameEncoding(name) == Ok(encoded) && NoEmptyLabel(Split(name))
    ensures ReadName(pre + encoded + rest, |pre|) == Ok((name, |pre| + |encoded|))
  {
    EncodingOfPieces(name, encoded);
    ReadNameOfPieces(name, encoded, pre, rest);
  }

  lemma EncodingOfPieces(name: string, encoded: seq<Byte>)
    requires IsAscii(name) && NameEncoding(name) == Ok(encoded)
    ensures Encodable(Split(name)) && encoded == LabelBytes(Split(name)) + [0]
  {
    SplitAscii(name);
  }

  /** With no zero byte at or after the offset, decoding fails. */
  lemma {:induction false} NoTerminatorFails(data: seq<Byte>, offset: nat)
    requires forall i :: offset <= i < |data| ==> data[i] != 0
    ensures ReadLabels(data, offset).Err? && ReadName(data, offset).Err?
    decreases |data| - offset
  {
    if offset < |data| {
      NoTerminatorFails(data, offset + 1 + data[offset]);
    }
  }

  /** A label whose length reaches the end of the buffer, leaving no room for
      a terminator, makes decoding fail. */
  lemma LabelOverrunFails(data: seq<Byte>, offset: nat)
    requires offset < |data| && data[offset] != 0
    requires |data| <= offset + 1 + data[offset]
    ensures ReadName(data, offset).Err?
  {
  }

  /** The empty name (the DNS root) is split into one empty piece, so it is
      written as two zero bytes; decoding stops at the first of them. */
  lemma RootName()
    ensures NameEncoding("") == Ok([0, 0])
    ensures ReadName([0, 0], 0) == Ok(("", 1))
  {
    assert Split("") == [""];
    assert AsciiEncode("") == [];
    assert LabelBytes([""]) + [0] == [0, 0];
  }
}
