/** The reply the server builds for each datagram it receives: the request's
    header and first question are parsed, and the reply carries a header
    derived from the request's, the question echoed, and one A record for
    the asked name pointing at a fixed address.
 */
module Responder {
  import opened Wire
  import opened MessageHeader
  import opened DomainName
  import opened Records

  /** The address every answer gives, the four bytes of 8.8.8.8. */
  const AnswerAddress: seq<Byte> := [8, 8, 8, 8]
  /** The time to live, in seconds, of every answer. */
  const AnswerTtl: nat := 60
  /** Record type A (a host address). */
  const TypeA: nat := 1
  /** Record class IN (the Internet). */
  const ClassIn: nat := 1

  /** The reply header: the request's id, opcode and recursion-desired bit,
      marked as a response, announcing one question and one answer; every
      other field keeps the header constructor's default of zero. */
  function ReplyHeader(request: Header): (h: Header)
    ensures WellFormed(request) ==> WellFormed(h)
  {
    Header(request.id, 1, request.opcode, 0, 0, request.rd, 0, 0, 0, 1, 1, 0, 0)
  }

  /** The single answer: an A record in class IN for the asked name. */
  function ReplyAnswer(question: Question): (a: Answer) {
    Answer(question.name, TypeA, ClassIn, AnswerTtl, AnswerAddress)
  }

  /** Steps 3 to 6 of the server loop: the packed reply header, then the
      question as parsed, then the answer. */
  function BuildResponse(request: Header, question: Question): (r: Result<seq<Byte>>)
    requires IsAscii(question.name)
    ensures WellFormed(request) ==> (r.Ok? <==> PackQuestion(question).Ok?)
    ensures r.Ok? ==> && PackHeader(ReplyHeader(request)).Ok? && PackQuestion(question).Ok?
                      && PackAnswer(ReplyAnswer(question)).Ok?
                      && r.value == PackHeader(ReplyHeader(request)).value
                                    + PackQuestion(question).value
                                    + PackAnswer(ReplyAnswer(question)).value
  {
    var header :- PackHeader(ReplyHeader(request));
    var echoed :- PackQuestion(question);
    match PackAnswer(ReplyAnswer(question))
    case Err(e) => Err(e)
    case Ok(answer) => Ok(header + echoed + answer)
  }

  /** One pass of the server loop on a received datagram: parse the header,
      parse the question that follows it, build the reply. The reply is
      refused exactly when the request cannot be parsed. */
  function HandleQuery(buf: seq<Byte>): (r: Result<seq<Byte>>)
    ensures r.Ok? <==> |buf| >= HeaderSize && UnpackQuestion(buf, HeaderSize).Ok?
    ensures r.Err? && |buf| < HeaderSize ==> r.error == ShortBuffer
  {
    var request :- UnpackHeader(buf);
    var parsed :- UnpackQuestion(buf, HeaderSize);
    BuildResponse(request, parsed.0)
  }

  /** On a parsed request the reply is the one `BuildResponse` gives for the
      parsed header and question, and it is never refused. */
  lemma ResponseParts(buf: seq<Byte>, request: Header, q: Question, next: nat, resp: seq<Byte>)
    requires UnpackHeader(buf) == Ok(request) && UnpackQuestion(buf, HeaderSize) == Ok((q, next))
    requires HandleQuery(buf) == Ok(resp)
    ensures IsAscii(q.name) && WellFormed(request) && BuildResponse(request, q) == Ok(resp)
  {
  }

  /** The reply's first twelve bytes read back as the reply header. */
  lemma ReplyHeaderReadBack(request: Header, q: Question, resp: seq<Byte>)
    requires WellFormed(request) && IsAscii(q.name) && BuildResponse(request, q) == Ok(resp)
    ensures UnpackHeader(resp) == Ok(ReplyHeader(request))
  {
    var reply := ReplyHeader(request);
    var header := PackHeader(reply).value;
    var echoed := PackQuestion(q).value;
    UnpackIgnoresRest(header + echoed, PackAnswer(ReplyAnswer(q)).value);
    PackUnpackPrefix(reply, echoed);
  }

  /** The reply header, read back, carries the request's id, opcode and
      recursion-desired bit, has the response bit set, counts one question and
      one answer, and has every other flag, the rcode and the other counts 0. */
  lemma ReplyHeaderFields(request: Header, q: Question, resp: seq<Byte>)
    requires WellFormed(request) && IsAscii(q.name) && BuildResponse(request, q) == Ok(resp)
    ensures |resp| >= HeaderSize && UnpackHeader(resp).Ok?
    ensures var h := UnpackHeader(resp).value;
            && h.id == request.id && h.qr == 1 && h.opcode == request.opcode && h.rd == request.rd
            && h.aa == 0 && h.tc == 0 && h.ra == 0 && h.z == 0 && h.rcode == 0
            && h.qdcount == 1 && h.ancount == 1 && h.nscount == 0 && h.arcount == 0
  {
    ReplyHeaderReadBack(request, q, resp);
  }

  /** The question is echoed right after the header as it packs; when its
      name splits into non-empty labels, reading the reply's question section
      gives the question back and ends where the answer starts. */
  lemma ReplyQuestionEchoed(request: Header, q: Question, resp: seq<Byte>)
    requires IsAscii(q.name) && BuildResponse(request, q) == Ok(resp)
    ensures PackQuestion(q).Ok?
    ensures var echoed := PackQuestion(q).value;
            && |resp| >= HeaderSize + |echoed|
            && resp[HeaderSize .. HeaderSize + |echoed|] == echoed
            && (NoEmptyLabel(Split(q.name)) ==>
                  UnpackQuestion(resp, HeaderSize) == Ok((q, HeaderSize + |echoed|)))
  {
    var header := PackHeader(ReplyHeader(request)).value;
    var echoed := PackQuestion(q).value;
    var answer := PackAnswer(ReplyAnswer(q)).value;
    assert resp == header + echoed + answer;
    if NoEmptyLabel(Split(q.name)) {
      QuestionRoundTrip(q, echoed, header, answer);
    }
  }

  /** The echo is the request's own question bytes when the request's labels
      are at least one and none holds a dot. */
  lemma ReplyEchoesRequest(buf: seq<Byte>, q: Question, next: nat, resp: seq<Byte>)
    requires HandleQuery(buf) == Ok(resp) && UnpackQuestion(buf, HeaderSize) == Ok((q, next))
    requires ReadLabels(buf, HeaderSize).Ok? && Resplits(ReadLabels(buf, HeaderSize).value.0)
    ensures HeaderSize <= next <= |buf| && next <= |resp|
    ensures resp[HeaderSize .. next] == buf[HeaderSize .. next]
  {
    var request := UnpackHeader(buf).value;
    ResponseParts(buf, request, q, next, resp);
    ReplyQuestionEchoed(request, q, resp);
    UnpackPackQuestion(buf, HeaderSize, q, next);
    EchoAt(resp, buf, PackQuestion(q).value, HeaderSize, next);
  }

  lemma EchoAt(resp: seq<Byte>, buf: seq<Byte>, echoed: seq<Byte>, at: nat, next: nat)
    requires at <= next <= |buf| && echoed == buf[at .. next]
    requires at + |echoed| <= |resp| && resp[at .. at + |echoed|] == echoed
    ensures next <= |resp| && resp[at .. next] == buf[at .. next]
  {
  }

  /** The answer follows the echoed question and ends the reply: the asked
      name encoded, type A, class IN, a TTL of 60, a data length of 4 and the
      four address bytes. */
  lemma ReplyAnswerFields(request: Header, q: Question, resp: seq<Byte>)
    requires IsAscii(q.name) && BuildResponse(request, q) == Ok(resp)
    ensures PackQuestion(q).Ok? && NameEncoding(q.name).Ok?
    ensures RecordAt(resp, HeaderSize + |PackQuestion(q).value|,
                     Answer(q.name, TypeA, ClassIn, AnswerTtl, AnswerAddress), NameEncoding(q.name).value)
  {
    var pre := PackHeader(ReplyHeader(request)).value + PackQuestion(q).value;
    AnswerAfter(q, NameEncoding(q.name).value, pre, HeaderSize + |PackQuestion(q).value|,
                PackAnswer(ReplyAnswer(q)).value, resp);
  }

  /** The reply's answer, packed after any prefix, is laid out as `RecordAt` says. */
  lemma AnswerAfter(q: Question, name: seq<Byte>, pre: seq<Byte>, at: nat, answer: seq<Byte>, resp: seq<Byte>)
    requires IsAscii(q.name) && NameEncoding(q.name) == Ok(name)
    requires PackAnswer(ReplyAnswer(q)) == Ok(answer) && resp == pre + answer && at == |pre|
    ensures RecordAt(resp, at, Answer(q.name, TypeA, ClassIn, AnswerTtl, AnswerAddress), name)
  {
    AnswerLayout(ReplyAnswer(q), name, pre, answer);
  }
}
