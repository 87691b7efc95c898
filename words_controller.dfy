/** The handlers of src/controllers/words.controller.ts. Each takes the
    request's parts, the markup stripper `clean`, and the values the awaited
    store calls resolve to, and gives back the store calls it issues and the
    response it sends. */
module WordsController {
  import opened Wrappers
  import opened Js
  import opened Entities
  import opened Http
  import opened Sanitization
  import opened Escaping
  import Messages
  import WordService

  /** The fields of a create or update request body. */
  datatype WordBody = WordBody(
    enWord: Option<string>, esWord: Option<string>,
    sentence1: Option<string>, sentence2: Option<string>, sentence3: Option<string>)

  /** The store functions of src/services/word.service.ts the handlers call. */
  datatype WordCall =
    | CountWords
    | FindPage(pages: nat, wordsLimit: nat)
    | FindOne(id: string)
    | Create(word: Word)
    | Update(id: string, word: Word)
    | Delete(id: string)

  /** What the awaited store calls resolve to: `find` the array a lookup by id
      gives (empty when nothing matches), `create` the stored document,
      `update` the updated document or `null`. */
  datatype WordStore = WordStore(
    find: string -> seq<WordDoc>,
    create: Word -> WordDoc,
    update: (string, Word) -> Option<WordDoc>)

  /** The body fields in the order the handlers check them. */
  function WordFields(b: WordBody): seq<(string, Option<string>)> {
    [("enWord", b.enWord), ("esWord", b.esWord),
     ("sentence1", b.sentence1), ("sentence2", b.sentence2), ("sentence3", b.sentence3)]
  }

  predicate WordMarkupFree(w: Word) {
    MarkupFree(w.en) && MarkupFree(w.es) && forall i :: 0 <= i < |w.sentences| ==> MarkupFree(w.sentences[i])
  }

  /** Every field holds a non-empty string. */
  predicate Complete(b: WordBody) {
    && b.enWord.Some? && b.enWord.value != ""
    && b.esWord.Some? && b.esWord.value != ""
    && b.sentence1.Some? && b.sentence1.value != ""
    && b.sentence2.Some? && b.sentence2.value != ""
    && b.sentence3.Some? && b.sentence3.value != ""
  }

  /** The first falsy field of the body, spelled out field by field. */
  lemma WordFieldsInOrder(b: WordBody)
    ensures FirstMissing(WordFields(b)) ==
      if !Truthy(OfField(b.enWord)) then Some("enWord")
      else if !Truthy(OfField(b.esWord)) then Some("esWord")
      else if !Truthy(OfField(b.sentence1)) then Some("sentence1")
      else if !Truthy(OfField(b.sentence2)) then Some("sentence2")
      else if !Truthy(OfField(b.sentence3)) then Some("sentence3")
      else None
    ensures FirstMissing(WordFields(b)).None? <==> Complete(b)
  {
    var f := WordFields(b);
    var k := FirstFalsy(f);
    assert f[0].1 == b.enWord && f[1].1 == b.esWord && f[2].1 == b.sentence1;
    assert f[3].1 == b.sentence2 && f[4].1 == b.sentence3;
    if !Truthy(OfField(b.enWord)) {
      assert k == 0;
    } else if !Truthy(OfField(b.esWord)) {
      assert k == 1;
    } else if !Truthy(OfField(b.sentence1)) {
      assert k == 2;
    } else if !Truthy(OfField(b.sentence2)) {
      assert k == 3;
    } else if !Truthy(OfField(b.sentence3)) {
      assert k == 4;
    } else {
      assert k == 5;
    }
  }

  lemma FieldEmptyMessages()
    ensures "enWord" + " field empty" == "enWord field empty"
    ensures "esWord" + " field empty" == "esWord field empty"
    ensures "sentence1" + " field empty" == "sentence1 field empty"
    ensures "sentence2" + " field empty" == "sentence2 field empty"
    ensures "sentence3" + " field empty" == "sentence3 field empty"
  {
    WordFieldMessages();
    SentenceFieldMessages();
  }

  lemma WordFieldMessages()
    ensures "enWord" + " field empty" == "enWord field empty"
    ensures "esWord" + " field empty" == "esWord field empty"
  {
  }

  lemma SentenceFieldMessages()
    ensures "sentence1" + " field empty" == "sentence1 field empty"
    ensures "sentence2" + " field empty" == "sentence2 field empty"
    ensures "sentence3" + " field empty" == "sentence3 field empty"
  {
  }

  /** The guard chain shared by postWord and patchWord: each field in turn
      must be truthy, and is sanitized once it has been checked; the word is
      assembled from the five sanitized strings. */
  function CheckWordBody(b: WordBody, clean: string -> string): (r: Checked<Word>)
    ensures r.Valid? <==> Complete(b)
    ensures r.Valid? ==>
      && Complete(b)
      && r.value.en == Sanitize(clean, b.enWord.value)
      && r.value.es == Sanitize(clean, b.esWord.value)
      && r.value.sentences == [Sanitize(clean, b.sentence1.value),
                               Sanitize(clean, b.sentence2.value),
                               Sanitize(clean, b.sentence3.value)]
  {
    if !Truthy(OfField(b.enWord)) then Invalid("enWord field empty")
    else
      var escapedEnWord := Sanitize(clean, b.enWord.value);
      if !Truthy(OfField(b.esWord)) then Invalid("esWord field empty")
      else
        var escapedEsWord := Sanitize(clean, b.esWord.value);
        if !Truthy(OfField(b.sentence1)) then Invalid("sentence1 field empty")
        else
          var escapedSentence1 := Sanitize(clean, b.sentence1.value);
          if !Truthy(OfField(b.sentence2)) then Invalid("sentence2 field empty")
          else
            var escapedSentence2 := Sanitize(clean, b.sentence2.value);
            if !Truthy(OfField(b.sentence3)) then Invalid("sentence3 field empty")
            else
              var escapedSentence3 := Sanitize(clean, b.sentence3.value);
              Valid(Word(escapedEnWord, escapedEsWord, [escapedSentence1, escapedSentence2, escapedSentence3]))
  }

  /** A rejected body is answered with the name of the first falsy field. */
  lemma CheckWordBodyMessage(b: WordBody, clean: string -> string)
    ensures CheckWordBody(b, clean).Invalid? <==> FirstMissing(WordFields(b)).Some?
    ensures CheckWordBody(b, clean).Invalid? ==>
      CheckWordBody(b, clean).message == FirstMissing(WordFields(b)).value + " field empty"
  {
    WordFieldsInOrder(b);
    FieldEmptyMessages();
  }

  /** Every string of an accepted word is free of markup characters, and
      decodes back to what `clean` made of the request field. */
  lemma CheckedWordIsMarkupFree(b: WordBody, clean: string -> string)
    requires Complete(b)
    ensures WordMarkupFree(CheckWordBody(b, clean).value)
    ensures Unescape(CheckWordBody(b, clean).value.en) == clean(b.enWord.value)
    ensures Unescape(CheckWordBody(b, clean).value.es) == clean(b.esWord.value)
    ensures Unescape(CheckWordBody(b, clean).value.sentences[0]) == clean(b.sentence1.value)
    ensures Unescape(CheckWordBody(b, clean).value.sentences[1]) == clean(b.sentence2.value)
    ensures Unescape(CheckWordBody(b, clean).value.sentences[2]) == clean(b.sentence3.value)
  {
    var w := CheckWordBody(b, clean).value;
    forall i | 0 <= i < |w.sentences| ensures MarkupFree(w.sentences[i]) {
      assert w.sentences[i] in w.sentences;
    }
  }

  /** getAllWords: page 1 and a page size of the whole collection unless the
      query says otherwise; each query value is sanitized and then parsed
      (`parseInt` is passed in as `parse`). */
  method GetAllWords(words: seq<WordDoc>, page: Option<string>, perPage: Option<string>,
                     clean: string -> string, parse: string -> nat)
    returns (h: Handled<WordCall>)
    requires Truthy(OfField(page)) ==>
      parse(Sanitize(clean, page.value)) >= 1 ||
      (if Truthy(OfField(perPage)) then parse(Sanitize(clean, perPage.value)) else |words|) == 0
    ensures h.response.status == EverythingOk && h.response.body.WordList?
    ensures |h.calls| == 2 && h.calls[0] == CountWords && h.calls[1].FindPage?
    ensures h.calls[1].pages == (if Truthy(OfField(page)) then parse(Sanitize(clean, page.value)) else 1)
    ensures h.calls[1].wordsLimit == (if Truthy(OfField(perPage)) then parse(Sanitize(clean, perPage.value)) else |words|)
    ensures (h.calls[1].pages >= 1 || h.calls[1].wordsLimit == 0) &&
      h.response.body.words == WordService.FindAllWords(words, h.calls[1].pages, h.calls[1].wordsLimit)
    ensures !Truthy(OfField(page)) && !Truthy(OfField(perPage)) ==> h.response.body.words == words
    ensures h.calls[1].wordsLimit == 0 ==> h.response.body.words == words
    ensures Truthy(OfField(page)) && !Truthy(OfField(perPage)) && parse(Sanitize(clean, page.value)) >= 2 ==>
      h.response.body.words == []
  {
    var totalWords := |words|;
    var pageNumber: nat := 1;
    var wordsPerPage: nat := totalWords;
    if Truthy(OfField(page)) {
      var escapedPage := Sanitize(clean, page.value);
      pageNumber := parse(escapedPage);
    }
    if Truthy(OfField(perPage)) {
      var escapedWordsPerPage := Sanitize(clean, perPage.value);
      wordsPerPage := parse(escapedWordsPerPage);
    }
    var data := WordService.FindAllWords(words, pageNumber, wordsPerPage);
    if !Truthy(OfField(perPage)) && pageNumber >= 2 {
      assert WordService.Skip(pageNumber, wordsPerPage) >= totalWords by {
        WordService.MulMonotone(1, pageNumber - 1, totalWords);
      }
    }
    h := Handled([CountWords, FindPage(pageNumber, wordsPerPage)], Response(EverythingOk, WordList(data)));
  }

  /** getOneWord: the lookup gives an array, and an array is truthy even when
      empty, so the not-found branch is never taken. */
  function GetOneWord(id: string, clean: string -> string, store: WordStore): (h: Handled<WordCall>)
    ensures h.calls == [FindOne(Sanitize(clean, id))]
    ensures h.response == Response(EverythingOk, WordList(store.find(Sanitize(clean, id))))
  {
    var escapedId := Sanitize(clean, id);
    var data := store.find(escapedId);
    if !Truthy(Array(|data|)) then
      Handled([FindOne(escapedId)], Response(ServerError, Notice(Messages.InternalServerError("WORD", id))))
    else
      Handled([FindOne(escapedId)], Response(EverythingOk, WordList(data)))
  }

  /** postWord: 400 naming the first empty field, and nothing created; else the
      sanitized word is created and the stored document returned with 201. */
  function PostWord(b: WordBody, clean: string -> string, store: WordStore): (h: Handled<WordCall>)
    ensures FirstMissing(WordFields(b)).Some? ==>
      h.calls == [] &&
      h.response == Response(BadRequest, Message(FirstMissing(WordFields(b)).value + " field empty"))
    ensures Complete(b) ==>
      && h.calls == [Create(CheckWordBody(b, clean).value)]
      && h.calls[0].word.en == Sanitize(clean, b.enWord.value)
      && h.calls[0].word.es == Sanitize(clean, b.esWord.value)
      && h.calls[0].word.sentences == [Sanitize(clean, b.sentence1.value),
                                      Sanitize(clean, b.sentence2.value),
                                      Sanitize(clean, b.sentence3.value)]
      && h.response == Response(Created, WordDocument(store.create(h.calls[0].word)))
  {
    CheckWordBodyMessage(b, clean);
    match CheckWordBody(b, clean)
    case Invalid(message) => Handled([], Response(BadRequest, Message(message)))
    case Valid(newWord) => Handled([Create(newWord)], Response(Created, WordDocument(store.create(newWord))))
  }

  /** What postWord hands to `createWord` is markup-free text that decodes
      back to the stripped request fields, with exactly three sentences. */
  lemma PostWordStoresSanitizedText(b: WordBody, clean: string -> string, store: WordStore)
    ensures forall c :: c in PostWord(b, clean, store).calls ==>
      && c.Create? && WordMarkupFree(c.word) && |c.word.sentences| == 3
      && Unescape(c.word.en) == clean(b.enWord.value)
      && Unescape(c.word.es) == clean(b.esWord.value)
      && Unescape(c.word.sentences[0]) == clean(b.sentence1.value)
      && Unescape(c.word.sentences[1]) == clean(b.sentence2.value)
      && Unescape(c.word.sentences[2]) == clean(b.sentence3.value)
  {
    WordFieldsInOrder(b);
    if Complete(b) {
      CheckedWordIsMarkupFree(b, clean);
    }
  }

  /** patchWord: the same field checks as postWord, made before the id is
      looked at; a `null` update result gives 500 with a message holding the
      id as the request gave it, not the sanitized one. */
  function PatchWord(id: string, b: WordBody, clean: string -> string, store: WordStore): (h: Handled<WordCall>)
    ensures FirstMissing(WordFields(b)).Some? ==> h == PostWord(b, clean, store)
    ensures Complete(b) ==>
      |h.calls| == 1 && h.calls[0] == Update(Sanitize(clean, id), PostWord(b, clean, store).calls[0].word)
    ensures Complete(b) ==>
      match store.update(h.calls[0].id, h.calls[0].word)
      case None => h.response == Response(ServerError, Notice(Messages.InternalServerError("word", id)))
      case Some(doc) => h.response == Response(Created, WordDocument(doc))
  {
    match CheckWordBody(b, clean)
    case Invalid(message) => Handled([], Response(BadRequest, Message(message)))
    case Valid(newWord) =>
      var escapedId := Sanitize(clean, id);
      var newData := store.update(escapedId, newWord);
      if !Truthy(OfResult(newData)) then
        Handled([Update(escapedId, newWord)],
                Response(ServerError, Notice(Messages.InternalServerError("word", id))))
      else
        Handled([Update(escapedId, newWord)], Response(Created, WordDocument(newData.value)))
  }

  /** deleteWord: `findAndDeleteWord` is not awaited, so `data` is a pending
      Promise, which is truthy; the handler always answers 204. */
  function DeleteWord(id: string, clean: string -> string): (h: Handled<WordCall>)
    ensures h.calls == [Delete(Sanitize(clean, id))]
    ensures h.response == Response(NoContent, Notice(Messages.DeleteSuccess))
  {
    var escapedId := Sanitize(clean, id);
    var data := Object;
    if !Truthy(data) then
      Handled([Delete(escapedId)], Response(ServerError, Notice(Messages.InternalServerError("word", id))))
    else
      Handled([Delete(escapedId)], Response(NoContent, Notice(Messages.DeleteSuccess)))
  }

  /** The not-found message of patchWord carries the request's id verbatim:
      the store was asked about the markup-free sanitized id, but a markup
      character of the raw id reaches the message. */
  lemma PatchWordNotFoundUsesRawId(id: string, b: WordBody, clean: string -> string, store: WordStore)
    requires Complete(b)
    requires store.update(Sanitize(clean, id), CheckWordBody(b, clean).value).None?
    ensures PatchWord(id, b, clean, store).response.body ==
      Notice(Messages.Failure("NO_WORD_WITH_THIS_ID_" + id, "INTERNAL_SERVER_ERROR", 500))
    ensures MarkupFree(PatchWord(id, b, clean, store).calls[0].id)
    ensures '<' in id ==> '<' in PatchWord(id, b, clean, store).response.body.notice.message
  {
    WordFieldsInOrder(b);
    Messages.WordNamesAgree(id);
    var m := "NO_WORD_WITH_THIS_ID_" + id;
    if '<' in id {
      var i :| 0 <= i < |id| && id[i] == '<';
      assert m[21 + i] == '<';
    }
  }

  /** The status each handler can answer with, and the catalog records it
      sends always carry that same status. */
  lemma WordStatusCodes(id: string, b: WordBody, clean: string -> string, store: WordStore)
    ensures GetOneWord(id, clean, store).response.status == EverythingOk
    ensures PostWord(b, clean, store).response.status in {BadRequest, Created}
    ensures PatchWord(id, b, clean, store).response.status in {BadRequest, ServerError, Created}
    ensures DeleteWord(id, clean).response.status == NoContent
    ensures NoticeAgrees(GetOneWord(id, clean, store).response)
    ensures NoticeAgrees(PostWord(b, clean, store).response)
    ensures NoticeAgrees(PatchWord(id, b, clean, store).response)
    ensures NoticeAgrees(DeleteWord(id, clean).response)
  {
    WordFieldsInOrder(b);
  }

  /** deleteWord with the store call awaited: `null` (no such word) gives the
      not-found answer its guard was written for. */
  function DeleteWordAwaited(id: string, clean: string -> string, delete: string -> Option<WordDoc>): (h: Handled<WordCall>)
    ensures h.calls == [Delete(Sanitize(clean, id))]
    ensures h.response.status == ServerError <==> delete(Sanitize(clean, id)).None?
    ensures h.response.status != ServerError ==> h.response == DeleteWord(id, clean).response
    ensures h.response.status == ServerError ==>
      h.response.body == Notice(Messages.InternalServerError("word", id))
  {
    var escapedId := Sanitize(clean, id);
    var data := delete(escapedId);
    if !Truthy(OfResult(data)) then
      Handled([Delete(escapedId)], Response(ServerError, Notice(Messages.InternalServerError("word", id))))
    else
      Handled([Delete(escapedId)], Response(NoContent, Notice(Messages.DeleteSuccess)))
  }

  /** As written, deleteWord answers 204 DELETE_SUCCESS for an id that matches
      no word, where the awaited version answers 500. */
  lemma DeleteWordIgnoresMissingWord(id: string, clean: string -> string, delete: string -> Option<WordDoc>)
    requires delete(Sanitize(clean, id)).None?
    ensures DeleteWord(id, clean).response == Response(NoContent, Notice(Messages.DeleteSuccess))
    ensures DeleteWordAwaited(id, clean, delete).response.status == ServerError
  {
  }

  /** getOneWord with the emptiness test the array needs: no matching word
      gives the not-found answer. */
  function GetOneWordChecked(id: string, clean: string -> string, store: WordStore): (h: Handled<WordCall>)
    ensures h.calls == [FindOne(Sanitize(clean, id))]
    ensures h.response.status == ServerError <==> store.find(Sanitize(clean, id)) == []
    ensures h.response.status != ServerError ==> h.response == GetOneWord(id, clean, store).response
    ensures h.response.status == ServerError ==>
      h.response.body == Notice(Messages.InternalServerError("WORD", id))
  {
    var escapedId := Sanitize(clean, id);
    var data := store.find(escapedId);
    if |data| == 0 then
      Handled([FindOne(escapedId)], Response(ServerError, Notice(Messages.InternalServerError("WORD", id))))
    else
      Handled([FindOne(escapedId)], Response(EverythingOk, WordList(data)))
  }

  /** As written, getOneWord answers 200 with `[]` for an id that matches no
      word, where the checked version answers 500. */
  lemma GetOneWordIgnoresMissingWord(id: string, clean: string -> string, store: WordStore)
    requires store.find(Sanitize(clean, id)) == []
    ensures GetOneWord(id, clean, store).response == Response(EverythingOk, WordList([]))
    ensures GetOneWordChecked(id, clean, store).response.status == ServerError
  {
  }
}
