/** What a handler hands to `res.status(..).json(..)`, the persistence calls
    it issues, and the field check every create and update handler starts with. */
module Http {
  import opened Wrappers
  import opened Js
  import opened Entities
  import Messages

  /** The standard HTTP status codes the controllers use. */
  const EverythingOk: int := 200
  const Created: int := 201
  const NoContent: int := 204
  const BadRequest: int := 400
  const ServerError: int := 500

  /** The JSON value given to `res.json`. */
  datatype Body =
    /** `{ message: ... }` */
    | Message(message: string)
    /** a record of the message catalog */
    | Notice(notice: Messages.Notice)
    | WordList(words: seq<WordDoc>)
    | WordDocument(word: WordDoc)
    | SentenceList(sentences: seq<SentenceDoc>)
    | SentenceDocument(sentence: SentenceDoc)
    /** what `JSON.stringify` makes of a pending `Promise`: `{}` */
    | EmptyObject

  datatype Response = Response(status: int, body: Body)

  /** The outcome of one request: the persistence calls issued, in order, and
      the response sent. */
  datatype Handled<C> = Handled(calls: seq<C>, response: Response)

  /** A catalog record in the body always carries the HTTP status it is sent with. */
  predicate NoticeAgrees(r: Response) {
    r.body.Notice? ==> r.body.notice.statusCode == r.status
  }

  /** Result of the field checks at the start of a create or update handler. */
  datatype Checked<T> = Valid(value: T) | Invalid(message: string)

  /** The position of the first field, in the order given, whose value is
      falsy; `|fields|` when every field holds a non-empty string. */
  function FirstFalsy(fields: seq<(string, Option<string>)>): (k: nat)
    ensures k <= |fields|
    ensures forall j :: 0 <= j < k ==> Truthy(OfField(fields[j].1))
    ensures k < |fields| ==> !Truthy(OfField(fields[k].1))
  {
    if fields == [] then 0
    else if !Truthy(OfField(fields[0].1)) then 0
    else
      var k := 1 + FirstFalsy(fields[1..]);
      assert forall j :: 1 <= j < |fields| ==> fields[j] == fields[1..][j - 1];
      k
  }

  /** The name of the first falsy field, if there is one: the field a handler
      rejects the request for. */
  function FirstMissing(fields: seq<(string, Option<string>)>): Option<string> {
    var k := FirstFalsy(fields);
    if k < |fields| then Some(fields[k].0) else None
  }
}
