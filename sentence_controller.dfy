/** The handlers of src/controllers/sentence.controller.ts, in the same form
    as the word handlers: request parts, the markup stripper `clean` and the
    values the awaited store calls resolve to, in; store calls issued and the
    response sent, out. */
module SentenceController {
  import opened Wrappers
  import opened Js
  import opened Entities
  import opened Http
  import opened Sanitization
  import opened Escaping
  import Messages

  /** The fields of a create or update request body. */
  datatype SentenceBody = SentenceBody(enSentence: Option<string>, esSentence: Option<string>)

  /** The store functions of src/services/sentence.service.ts the handlers call. */
  datatype SentenceCall =
    | FindAll
    | FindOne(id: string)
    | Create(sentence: Sentence)
    | Update(id: string, sentence: Sentence)
    | Delete(id: string)

  /** What the awaited store calls resolve to: `create` the stored document,
      `update` the updated document or `null`. */
  datatype SentenceStore = SentenceStore(
    create: Sentence -> SentenceDoc,
    update: (string, Sentence) -> Option<SentenceDoc>)

  /** The body fields in the order the handlers check them. */
  function SentenceFields(b: SentenceBody): seq<(string, Option<string>)> {
    [("enSentence", b.enSentence), ("esSentence", b.esSentence)]
  }

  /** Both fields hold a non-empty string. */
  predicate Complete(b: SentenceBody) {
    b.enSentence.Some? && b.enSentence.value != "" && b.esSentence.Some? && b.esSentence.value != ""
  }

  lemma SentenceFieldsInOrder(b: SentenceBody)
    ensures FirstMissing(SentenceFields(b)) ==
      if !Truthy(OfField(b.enSentence)) then Some("enSentence")
      else if !Truthy(OfField(b.esSentence)) then Some("esSentence")
      else None
    ensures FirstMissing(SentenceFields(b)).None? <==> Complete(b)
  {
    var f := SentenceFields(b);
    var k := FirstFalsy(f);
    assert f[0].1 == b.enSentence && f[1].1 == b.esSentence;
    if !Truthy(OfField(b.enSentence)) {
      assert k == 0;
    } else if !Truthy(OfField(b.esSentence)) {
      assert k == 1;
    } else {
      assert k == 2;
    }
  }

  lemma FieldIsEmptyMessages()
    ensures "field " + "enSentence" + " is empty" == "field enSentence is empty"
    ensures "field " + "esSentence" + " is empty" == "field esSentence is empty"
  {
  }

  /** The guard chain shared by postSentence and patchSentence. */
  function CheckSentenceBody(b: SentenceBody, clean: string -> string): (r: Checked<Sentence>)
    ensures r.Valid? <==> Complete(b)
    ensures r.Valid? ==>
      && Complete(b)
      && r.value.en == Sanitize(clean, b.enSentence.value)
      && r.value.es == Sanitize(clean, b.esSentence.value)
  {
    if !Truthy(OfField(b.enSentence)) then Invalid("field enSentence is empty")
    else
      var escapedEnSentence := Sanitize(clean, b.enSentence.value);
      if !Truthy(OfField(b.esSentence)) then Invalid("field esSentence is empty")
      else
        var escapedEsSentence := Sanitize(clean, b.esSentence.value);
        Valid(Sentence(escapedEnSentence, escapedEsSentence))
  }

  /** A rejected body is answered with the name of the first falsy field. */
  lemma CheckSentenceBodyMessage(b: SentenceBody, clean: string -> string)
    ensures CheckSentenceBody(b, clean).Invalid? <==> FirstMissing(SentenceFields(b)).Some?
    ensures CheckSentenceBody(b, clean).Invalid? ==>
      CheckSentenceBody(b, clean).message == "field " + FirstMissing(SentenceFields(b)).value + " is empty"
  {
    SentenceFieldsInOrder(b);
    FieldIsEmptyMessages();
  }

  /** getAllSentences: the whole collection, always with 200. */
  function GetAllSentences(sentences: seq<SentenceDoc>): (h: Handled<SentenceCall>)
    ensures h.calls == [FindAll]
    ensures h.response == Response(EverythingOk, SentenceList(sentences))
  {
    Handled([FindAll], Response(EverythingOk, SentenceList(sentences)))
  }

  /** getOneSentence: `findOneSentence` is not awaited, so `data` is a pending
      Promise: truthy, so the not-found branch is never taken, and serialized
      as `{}` in place of the document. */
  function GetOneSentence(id: string, clean: string -> string): (h: Handled<SentenceCall>)
    ensures h.calls == [FindOne(Sanitize(clean, id))]
    ensures h.response == Response(EverythingOk, EmptyObject)
  {
    var escapedId := Sanitize(clean, id);
    var data := Object;
    if !Truthy(data) then
      Handled([FindOne(escapedId)], Response(ServerError, Notice(Messages.InternalServerError("Sentence", id))))
    else
      Handled([FindOne(escapedId)], Response(EverythingOk, EmptyObject))
  }

  /** postSentence: 400 naming the first empty field, and nothing created;
      else the sanitized sentence is created and returned with 201. */
  function PostSentence(b: SentenceBody, clean: string -> string, store: SentenceStore): (h: Handled<SentenceCall>)
    ensures FirstMissing(SentenceFields(b)).Some? ==>
      h.calls == [] &&
      h.response == Response(BadRequest, Message("field " + FirstMissing(SentenceFields(b)).value + " is empty"))
    ensures Complete(b) ==>
      && h.calls == [Create(CheckSentenceBody(b, clean).value)]
      && h.calls[0].sentence.en == Sanitize(clean, b.enSentence.value)
      && h.calls[0].sentence.es == Sanitize(clean, b.esSentence.value)
      && h.response == Response(Created, SentenceDocument(store.create(h.calls[0].sentence)))
  {
    CheckSentenceBodyMessage(b, clean);
    match CheckSentenceBody(b, clean)
    case Invalid(message) => Handled([], Response(BadRequest, Message(message)))
    case Valid(newSentence) =>
      Handled([Create(newSentence)], Response(Created, SentenceDocument(store.create(newSentence))))
  }

  /** What postSentence hands to `createSentence` is markup-free text that
      decodes back to the stripped request fields. */
  lemma PostSentenceStoresSanitizedText(b: SentenceBody, clean: string -> string, store: SentenceStore)
    ensures forall c :: c in PostSentence(b, clean, store).calls ==>
      && c.Create? && MarkupFree(c.sentence.en) && MarkupFree(c.sentence.es)
      && Unescape(c.sentence.en) == clean(b.enSentence.value)
      && Unescape(c.sentence.es) == clean(b.esSentence.value)
  {
    SentenceFieldsInOrder(b);
  }

  /** patchSentence: the same field checks as postSentence, made before the
      id is looked at, so a bad body gets 400 whatever the id; a `null`
      update result gives 500 with a message holding the raw id. */
  function PatchSentence(id: string, b: SentenceBody, clean: string -> string, store: SentenceStore): (h: Handled<SentenceCall>)
    ensures FirstMissing(SentenceFields(b)).Some? ==> h == PostSentence(b, clean, store)
    ensures Complete(b) ==>
      |h.calls| == 1 && h.calls[0] == Update(Sanitize(clean, id), PostSentence(b, clean, store).calls[0].sentence)
    ensures Complete(b) ==>
      match store.update(h.calls[0].id, h.calls[0].sentence)
      case None => h.response == Response(ServerError, Notice(Messages.InternalServerError("Sentence", id)))
      case Some(doc) => h.response == Response(Created, SentenceDocument(doc))
  {
    SentenceFieldsInOrder(b);
    match CheckSentenceBody(b, clean)
    case Invalid(message) => Handled([], Response(BadRequest, Message(message)))
    case Valid(newSentence) =>
      var escapedId := Sanitize(clean, id);
      var newData := store.update(escapedId, newSentence);
      if !Truthy(OfResult(newData)) then
        Handled([Update(escapedId, newSentence)],
                Response(ServerError, Notice(Messages.InternalServerError("Sentence", id))))
      else
        Handled([Update(escapedId, newSentence)], Response(Created, SentenceDocument(newData.value)))
  }

  /** A body with a missing field is rejected the same way for every id. */
  lemma PatchSentenceValidatesBeforeId(id1: string, id2: string, b: SentenceBody,
                                       clean: string -> string, store: SentenceStore)
    requires !Complete(b)
    ensures PatchSentence(id1, b, clean, store) == PatchSentence(id2, b, clean, store)
    ensures PatchSentence(id1, b, clean, store).calls == []
    ensures PatchSentence(id1, b, clean, store).response.status == BadRequest
  {
    SentenceFieldsInOrder(b);
  }

  /** The not-found message names the entity upper-cased and the raw id. */
  lemma PatchSentenceNotFoundMessage(id: string, b: SentenceBody, clean: string -> string, store: SentenceStore)
    requires Complete(b)
    requires store.update(Sanitize(clean, id), CheckSentenceBody(b, clean).value).None?
    ensures PatchSentence(id, b, clean, store).response.body ==
      Notice(Messages.Failure("NO_SENTENCE_WITH_THIS_ID_" + id, "INTERNAL_SERVER_ERROR", 500))
  {
    SentenceFieldsInOrder(b);
    Messages.SentenceName(id);
  }

  /** deleteSentence: `findAndDeleteSentence` is not awaited; the pending
      Promise is truthy, so the handler always answers 204. */
  function DeleteSentence(id: string, clean: string -> string): (h: Handled<SentenceCall>)
    ensures h.calls == [Delete(Sanitize(clean, id))]
    ensures h.response == Response(NoContent, Notice(Messages.DeleteSuccess))
  {
    var escapedId := Sanitize(clean, id);
    var data := Object;
    if !Truthy(data) then
      Handled([Delete(escapedId)], Response(ServerError, Notice(Messages.InternalServerError("Sentence", id))))
    else
      Handled([Delete(escapedId)], Response(NoContent, Notice(Messages.DeleteSuccess)))
  }

  /** The status each handler can answer with, and the catalog records it
      sends always carry that same status. */
  lemma SentenceStatusCodes(id: string, b: SentenceBody, clean: string -> string, store: SentenceStore,
                            sentences: seq<SentenceDoc>)
    ensures GetAllSentences(sentences).response.status == EverythingOk
    ensures GetOneSentence(id, clean).response.status == EverythingOk
    ensures PostSentence(b, clean, store).response.status in {BadRequest, Created}
    ensures PatchSentence(id, b, clean, store).response.status in {BadRequest, ServerError, Created}
    ensures DeleteSentence(id, clean).response.status == NoContent
    ensures NoticeAgrees(PostSentence(b, clean, store).response)
    ensures NoticeAgrees(PatchSentence(id, b, clean, store).response)
    ensures NoticeAgrees(DeleteSentence(id, clean).response)
  {
    SentenceFieldsInOrder(b);
  }

  /** getOneSentence with the lookup awaited: the document, or the not-found
      answer for `null`. */
  function GetOneSentenceAwaited(id: string, clean: string -> string, find: string -> Option<SentenceDoc>): (h: Handled<SentenceCall>)
    ensures h.calls == [FindOne(Sanitize(clean, id))]
    ensures h.response.status == ServerError <==> find(Sanitize(clean, id)).None?
    ensures find(Sanitize(clean, id)).Some? ==>
      h.response == Response(EverythingOk, SentenceDocument(find(Sanitize(clean, id)).value))
    ensures find(Sanitize(clean, id)).None? ==>
      h.response.body == Notice(Messages.InternalServerError("Sentence", id))
  {
    var escapedId := Sanitize(clean, id);
    var data := find(escapedId);
    if !Truthy(OfResult(data)) then
      Handled([FindOne(escapedId)], Response(ServerError, Notice(Messages.InternalServerError("Sentence", id))))
    else
      Handled([FindOne(escapedId)], Response(EverythingOk, SentenceDocument(data.value)))
  }

  /** As written, getOneSentence answers 200 `{}` even for an id that matches
      no sentence, and never returns the document. */
  lemma GetOneSentenceIgnoresLookup(id: string, clean: string -> string, find: string -> Option<SentenceDoc>)
    ensures GetOneSentence(id, clean).response == Response(EverythingOk, EmptyObject)
    ensures GetOneSentence(id, clean).response != GetOneSentenceAwaited(id, clean, find).response
  {
  }

  /** deleteSentence with the store call awaited. */
  function DeleteSentenceAwaited(id: string, clean: string -> string, delete: string -> Option<SentenceDoc>): (h: Handled<SentenceCall>)
    ensures h.calls == [Delete(Sanitize(clean, id))]
    ensures h.response.status == ServerError <==> delete(Sanitize(clean, id)).None?
    ensures h.response.status != ServerError ==> h.response == DeleteSentence(id, clean).response
    ensures h.response.status == ServerError ==>
      h.response.body == Notice(Messages.InternalServerError("Sentence", id))
  {
    var escapedId := Sanitize(clean, id);
    var data := delete(escapedId);
    if !Truthy(OfResult(data)) then
      Handled([Delete(escapedId)], Response(ServerError, Notice(Messages.InternalServerError("Sentence", id))))
    else
      Handled([Delete(escapedId)], Response(NoContent, Notice(Messages.DeleteSuccess)))
  }

  /** As written, deleteSentence answers 204 for an id that matches no
      sentence, where the awaited version answers 500. */
  lemma DeleteSentenceIgnoresMissingSentence(id: string, clean: string -> string, delete: string -> Option<SentenceDoc>)
    requires delete(Sanitize(clean, id)).None?
    ensures DeleteSentence(id, clean).response == Response(NoContent, Notice(Messages.DeleteSuccess))
    ensures DeleteSentenceAwaited(id, clean, delete).response.status == ServerError
  {
  }
}
