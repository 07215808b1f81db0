/** The question entry (section 4.1.2 of RFC 1035) and the resource record
    of an answer (section 4.1.3), each a domain name followed by fixed-width
    big-endian fields.
 */
module Records {
  import opened Wire
  import opened DomainName

  /** A question: the name asked about, its type (1 is A) and its class (1 is IN). */
  datatype Question = Question(name: string, qtype: nat, qclass: nat)

  /** An answer record; `data` is the record data, written after its 16-bit length. */
  datatype Answer = Answer(name: string, atype: nat, aclass: nat, ttl: nat, data: seq<Byte>)

  /** `DNSQuestion.pack`: the encoded name, then type and class as two bytes each. */
  function PackQuestion(q: Question): (r: Result<seq<Byte>>)
    requires IsAscii(q.name)
    ensures r.Ok? <==> NameEncoding(q.name).Ok? && q.qtype < 0x1_0000 && q.qclass < 0x1_0000
    ensures r.Ok? ==> |r.value| == |NameEncoding(q.name).value| + 4
  {
    var name :- NameEncoding(q.name);
    var qtype :- ToBytes(q.qtype, 2);
    var qclass :- ToBytes(q.qclass, 2);
    Ok(name + qtype + qclass)
  }

  /** Question layout: a packed question is its encoded name followed by two
      bytes reading back as the type and two reading back as the class. */
  lemma QuestionLayout(q: Question, name: seq<Byte>, encoded: seq<Byte>)
    requires IsAscii(q.name) && NameEncoding(q.name) == Ok(name) && PackQuestion(q) == Ok(encoded)
    ensures |encoded| == |name| + 4 && encoded[.. |name|] == name
    ensures FromBigEndian(encoded[|name| .. |name| + 2]) == q.qtype
    ensures FromBigEndian(encoded[|name| + 2 ..]) == q.qclass
  {
    var qtype, qclass := ToBytes(q.qtype, 2).value, ToBytes(q.qclass, 2).value;
    assert encoded == name + qtype + qclass;
    assert encoded[|name| .. |name| + 2] == qtype;
    assert encoded[|name| + 2 ..] == qclass;
  }

  /** The root question: packing writes its name as two zero bytes, while a
      request carrying the root name as the single zero byte of the wire
      format unpacks to it. */
  lemma RootQuestion()
    ensures PackQuestion(Question("", 1, 1)) == Ok([0, 0, 0, 1, 0, 1])
    ensures UnpackQuestion([0, 0, 1, 0, 1], 0) == Ok((Question("", 1, 1), 5))
  {
    var one: seq<Byte> := [0, 1];
    assert one[..1] == [0] && [0][..0] == [];
    assert FromBigEndian(one) == 1;
    assert ToBytes(1, 2) == Ok(one) by { ToBytesOfRead(one); }
    RootName();
    assert PackQuestion(Question("", 1, 1)) == Ok([0, 0] + one + one);
    assert [0, 0] + one + one == [0, 0, 0, 1, 0, 1];
    var data: seq<Byte> := [0, 0, 1, 0, 1];
    assert ReadLabels(data, 0) == Ok(([], 1));
    assert ReadName(data, 0) == Ok(("", 1));
    assert data[1 .. 3] == one && data[3 .. 5] == one;
  }

  /** `DNSQuestion.unpack`: decodes the name at the offset, then reads type
      and class from the four bytes after it; returns the offset past them. */
  function UnpackQuestion(data: seq<Byte>, offset: nat): (r: Result<(Question, nat)>)
    ensures r.Ok? <==> ReadName(data, offset).Ok? && ReadName(data, offset).value.1 + 4 <= |data|
    ensures r.Ok? ==> r.value.1 == ReadName(data, offset).value.1 + 4
    ensures r.Ok? ==> var q := r.value.0;
                      IsAscii(q.name) && NameEncoding(q.name).Ok? && q.qtype < 0x1_0000 && q.qclass < 0x1_0000
  {
    var read :- ReadName(data, offset);
    var (name, next) := read;
    if |data| < next + 4 then Err(ShortBuffer)
    else
      Ok((Question(name, FromBigEndian(data[next .. next + 2]), FromBigEndian(data[next + 2 .. next + 4])),
          next + 4))
  }

  /** Question round trip: a packed question decodes, at any offset and
      whatever follows it, to itself, and the decode ends where the packed
      bytes do. */
  lemma QuestionRoundTrip(q: Question, encoded: seq<Byte>, pre: seq<Byte>, rest: seq<Byte>)
    requires IsAscii(q.name) && PackQuestion(q) == Ok(encoded) && NoEmptyLabel(Split(q.name))
    ensures UnpackQuestion(pre + encoded + rest, |pre|) == Ok((q, |pre| + |encoded|))
  {
    var name := NameEncoding(q.name).value;
    var qtype, qclass := BigEndian(q.qtype, 2), BigEndian(q.qclass, 2);
    assert encoded == name + qtype + qclass;
    var data := pre + encoded + rest;
    assert data == pre + name + (qtype + qclass + rest);
    NameRoundTrip(q.name, name, pre, qtype + qclass + rest);
    var next := |pre| + |name|;
    assert data[next .. next + 2] == qtype;
    assert data[next + 2 .. next + 4] == qclass;
    BigEndianRoundTrip(q.qtype, 2);
    BigEndianRoundTrip(q.qclass, 2);
  }

  /** The reverse of the question round trip: when the decoded labels are at
      least one and none holds a dot, packing the unpacked question gives
      back exactly the bytes it was read from. */
  lemma UnpackPackQuestion(data: seq<Byte>, offset: nat, q: Question, next: nat)
    requires UnpackQuestion(data, offset) == Ok((q, next))
    requires ReadLabels(data, offset).Ok? && Resplits(ReadLabels(data, offset).value.0)
    ensures PackQuestion(q) == Ok(data[offset .. next])
  {
    var stop := ReadName(data, offset).value.1;
    ReencodeDecoded(data, offset);
    var name, qtype, qclass := data[offset .. stop], data[stop .. stop + 2], data[stop + 2 .. stop + 4];
    assert next == stop + 4;
    assert q == Question(ReadName(data, offset).value.0, FromBigEndian(qtype), FromBigEndian(qclass));
    ToBytesOfRead(qtype);
    ToBytesOfRead(qclass);
    assert PackQuestion(q) == Ok(name + qtype + qclass);
    ThreeSlices(data, offset, stop, next);
  }

  lemma ThreeSlices(data: seq<Byte>, i: nat, j: nat, k: nat)
    requires i <= j && k == j + 4 <= |data|
    ensures data[i .. k] == data[i .. j] + data[j .. j + 2] + data[j + 2 .. k]
  {
  }

  /** `DNSAnswer.pack`: the encoded name, type (2 bytes), class (2), TTL (4),
      the length of the data (2), then the data. */
  function PackAnswer(a: Answer): (r: Result<seq<Byte>>)
    requires IsAscii(a.name)
    ensures r.Ok? <==> && NameEncoding(a.name).Ok? && a.atype < 0x1_0000 && a.aclass < 0x1_0000
                       && a.ttl < 0x1_0000_0000 && |a.data| < 0x1_0000
  {
    var name :- NameEncoding(a.name);
    var atype :- ToBytes(a.atype, 2);
    var aclass :- ToBytes(a.aclass, 2);
    var ttl :- ToBytes(a.ttl, 4);
    var rdlength :- ToBytes(|a.data|, 2);
    Ok(name + atype + aclass + ttl + rdlength + a.data)
  }

  /** The bytes of `s` from `at` to the end are the answer record `a` whose
      name is written as `name`: the name, then type, class, TTL and data
      length reading back as the record's values, then the data itself. */
  predicate RecordAt(s: seq<Byte>, at: nat, a: Answer, name: seq<Byte>) {
    var n := at + |name|;
    && |s| == n + 10 + |a.data|
    && s[at .. n] == name
    && FromBigEndian(s[n .. n + 2]) == a.atype
    && FromBigEndian(s[n + 2 .. n + 4]) == a.aclass
    && FromBigEndian(s[n + 4 .. n + 8]) == a.ttl
    && FromBigEndian(s[n + 8 .. n + 10]) == |a.data|
    && s[n + 10 ..] == a.data
  }

  /** Answer layout: a packed answer, after whatever `pre` precedes it, is
      laid out as `RecordAt` says. */
  lemma AnswerLayout(a: Answer, name: seq<Byte>, pre: seq<Byte>, encoded: seq<Byte>)
    requires IsAscii(a.name) && NameEncoding(a.name) == Ok(name) && PackAnswer(a) == Ok(encoded)
    ensures RecordAt(pre + encoded, |pre|, a, name)
  {
    var atype, aclass := ToBytes(a.atype, 2).value, ToBytes(a.aclass, 2).value;
    var ttl, rdlength := ToBytes(a.ttl, 4).value, ToBytes(|a.data|, 2).value;
    assert encoded == name + atype + aclass + ttl + rdlength + a.data;
    FieldsAt(pre, name, atype, aclass, ttl, rdlength, a.data, pre + encoded);
  }

  /** Where each piece of a concatenation of a prefix and six fields sits. */
  lemma FieldsAt(pre: seq<Byte>, p0: seq<Byte>, p1: seq<Byte>, p2: seq<Byte>, p3: seq<Byte>,
                 p4: seq<Byte>, p5: seq<Byte>, s: seq<Byte>)
    requires s == pre + (p0 + p1 + p2 + p3 + p4 + p5)
    requires |p1| == 2 && |p2| == 2 && |p3| == 4 && |p4| == 2
    ensures var at := |pre|;
            var n := at + |p0|;
            && |s| == n + 10 + |p5| && s[at .. n] == p0
            && s[n .. n + 2] == p1 && s[n + 2 .. n + 4] == p2 && s[n + 4 .. n + 8] == p3
            && s[n + 8 .. n + 10] == p4 && s[n + 10 ..] == p5
  {
  }
}
