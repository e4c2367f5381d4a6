/** The parser of a concatenated e-mail dump: one record per marker-terminated chunk. */
module Enron {
  import opened Text
  import opened Split
  import opened Fields

  /** One parsed e-mail: six fields, each the capture of its pattern or the placeholder. */
  datatype Email = Email(
    messageId: Field,
    date: Field,
    subject: Field,
    sender: Field,
    receiver: Field,
    body: Field)

  /** Every field of the record is the leftmost capture of its own pattern in the chunk. */
  ghost predicate ParsedFrom(chunk: string, e: Email) {
    && LeftmostCapture(MessageIdPattern, chunk, e.messageId)
    && LeftmostCapture(DatePattern, chunk, e.date)
    && LeftmostCapture(SubjectPattern, chunk, e.subject)
    && LeftmostCapture(SenderPattern, chunk, e.sender)
    && LeftmostCapture(ReceiverPattern, chunk, e.receiver)
    && LeftmostCapture(BodyPattern, chunk, e.body)
  }

  /** The six independent field extractions applied to one chunk; `EmailParsed` states what each field is. */
  function ExtractEmail(chunk: string): Email {
    Email(
      Extract(MessageIdPattern, chunk),
      Extract(DatePattern, chunk),
      Extract(SubjectPattern, chunk),
      Extract(SenderPattern, chunk),
      Extract(ReceiverPattern, chunk),
      Extract(BodyPattern, chunk))
  }

  /** Applies `f` to every element, in order, appending each result (the loop shape of the parser). */
  function MapInOrder<A, B>(f: A -> B, xs: seq<A>): (ys: seq<B>)
    ensures |ys| == |xs|
    ensures forall i :: 0 <= i < |xs| ==> ys[i] == f(xs[i])
    decreases |xs|
  {
    if xs == [] then [] else MapInOrder(f, xs[..|xs| - 1]) + [f(xs[|xs| - 1])]
  }

  /** One record per chunk, in chunk order. */
  function Records(chunks: seq<string>): seq<Email> {
    MapInOrder(ExtractEmail, chunks)
  }

  /** Each field of a record is the leftmost capture of its own pattern in the record's chunk. */
  lemma EmailParsed(chunk: string)
    ensures ParsedFrom(chunk, ExtractEmail(chunk))
  {
    ExtractLeftmost(MessageIdPattern, chunk);
    ExtractLeftmost(DatePattern, chunk);
    ExtractLeftmost(SubjectPattern, chunk);
    ExtractLeftmost(SenderPattern, chunk);
    ExtractLeftmost(ReceiverPattern, chunk);
    ExtractLeftmost(BodyPattern, chunk);
  }

  /** Record i is parsed from chunk i alone, and there is one record per chunk. */
  lemma RecordsParsed(chunks: seq<string>)
    ensures |Records(chunks)| == |chunks|
    ensures forall i :: 0 <= i < |chunks| ==> Records(chunks)[i] == ExtractEmail(chunks[i])
    ensures forall i :: 0 <= i < |chunks| ==> ParsedFrom(chunks[i], Records(chunks)[i])
  {
    forall i | 0 <= i < |chunks| ensures ParsedFrom(chunks[i], Records(chunks)[i]) {
      EmailParsed(chunks[i]);
    }
  }

  /** Holds the records of every e-mail in the dump, in file order. */
  class Server {
    var emails: seq<Email>

    /** Parses the whole file text: split on the marker, drop the last piece, one record per chunk. */
    constructor (file: string)
      ensures emails == Records(Chunks(file))
      ensures |emails| == DelimiterCount(file)
    {
      emails := [];
      new;
      var chunks := Chunks(file);
      for i := 0 to |chunks|
        invariant emails == MapInOrder(ExtractEmail, chunks[..i])
      {
        assert chunks[..i + 1][..i] == chunks[..i];
        emails := emails + [ExtractEmail(chunks[i])];
      }
      assert chunks[..|chunks|] == chunks;
    }
  }

  /** The number of records parsed from the file: the number of times the marker occurs in it. */
  method CountEmails(file: string) returns (n: nat)
    ensures n == DelimiterCount(file)
    ensures !Contains(file, END_MARKER) ==> n == 0
  {
    var server := new Server(file);
    n := |server.emails|;
  }
}
