# english-word backend: a verified model of its request pipeline

The repository is a small Express/MongoDB REST backend. It stores **words**
(an English and a Spanish lemma, plus example sentences) and **sentences**
(an English/Spanish pair). This project models the request-handling core
in Dafny and proves properties of it:

- **Escaper** (`escapeSpecialCharacters`), module `Escaping`. Five global
  replacements, `&` first. The proofs show that the five passes equal one
  per-character pass. The output has no raw `<`, `>`, `"` or `'`, and every
  `&` in it begins an entity. The proofs also give the output length exactly
  and show that a decoder recovers the input, so escaping is injective. Text
  without special characters is exactly the set of fixed points. Escaping is
  not idempotent.
- **Sanitization pipeline**, module `Sanitization`: `cleanXSS` then the
  escaper. `cleanXSS` wraps the sanitize-html library. The model takes it as
  a parameter `clean: string -> string`, so every property holds whatever it
  does.
- **Message catalog** (`src/utils/messages.ts`), module `Messages`. It holds
  `deleteSuccess` (`DELETE_SUCCESS`, 204), `authorizationRequired`
  (`AUTHORIZATION_REQUIRED`, `UNAUTHORIZED`, 401) and `internalServerError`.
- **Word pagination** (`findAllWords`), module `WordService`. It is
  skip/limit slicing over the collection, in storage order.
- **Handlers** of both controllers, modules `WordsController` and
  `SentenceController`. Each handler takes the request parts, `clean` and
  the values its awaited store calls resolve to. The store is a record of
  functions (`WordStore`, `SentenceStore`). A handler returns
  `Handled(calls, response)`: the store calls it issued, in order, and the
  status and JSON body it passed to `res.status(..).json(..)`.
- **JavaScript truthiness** of the tested values, module `Js`. `undefined`,
  `null` and `""` are falsy. Arrays and Promises are objects, so they are
  truthy.

Four handlers test a value that can never be falsy. Their `if (!data)`
guards expect a not-found result, and in `src/controllers/words.controller.ts`
so do the comments above them:

- `deleteWord` (`src/controllers/words.controller.ts:227`),
  `getOneSentence` (`src/controllers/sentence.controller.ts:23`) and
  `deleteSentence` (`src/controllers/sentence.controller.ts:95`) do not await
  their store call, so the guard tests a pending Promise;
- `getOneWord` (`src/controllers/words.controller.ts:63`) tests the array
  that `find` resolves to, and an empty array is truthy.

The model keeps each guard as the code writes it, with JavaScript's
truthiness, and proves that its not-found branch is never taken.

Escaping is not idempotent: a second pass re-encodes the `&` of every
entity (`&` → `&amp;` → `&amp;amp;`); see `Escaping.EscapeNotIdempotent`
and `Escaping.EscapeAmpersandTwice`.

`src/config/statusCode.ts` is not part of this model. The status constants
are taken as the standard codes: 200, 201, 204, 400 and 500.
`src/interfaces/*.ts` are not part of this model either. The entity shapes
come from the controllers and `src/models/*.ts`.

## Model

The catalog constants `Messages.DeleteSuccess` (src/utils/messages.ts:1-5) and
`Messages.AuthorizationRequired` (src/utils/messages.ts:7-11) are plain values
with no contract of their own; they are described above and under "Left out".

| member | source | states |
|---|---|---|
| Escaping.EscapeSpecialCharacters | src/utils/escapeSpecialCharacters.ts:2-11 | the five replacements in source order; its own contract: no raw `<`, `>`, `"` or `'` in the output, and text without special characters is returned unchanged; its meaning as one left-to-right pass over the characters is `EscapeIsSinglePass` (reference `EscapeEach`) |
| Escaping.ReplaceAll | src/utils/escapeSpecialCharacters.ts:3-7 | one global `replace`: text without the character comes back unchanged; when the replacement does not contain the character, the result does not contain it either |
| Escaping.ReplaceAllIntroducesNothing | src/utils/escapeSpecialCharacters.ts:3-7 | a replacement never introduces a character that neither the text nor the replacement holds, so no later pass brings back a character an earlier one removed |
| Escaping.EscapeIsSinglePass | src/utils/escapeSpecialCharacters.ts:3-7 | the five ordered passes equal escaping each character once, so later passes never re-encode an `&` they introduced (`<` becomes `&lt;`, not `&amp;lt;`) |
| Escaping.EscapeHasNoMarkup | src/utils/escapeSpecialCharacters.ts:4-7 | no character of the output is `<`, `>`, `"` or `'` |
| Escaping.EscapeAmpersandsStartEntities | src/utils/escapeSpecialCharacters.ts:3-7 | every `&` of the output starts one of `&amp;`, `&lt;`, `&gt;`, `&quot;`, `&#39;` |
| Escaping.EscapeFixedPoints | src/utils/escapeSpecialCharacters.ts:2-10 | the output equals the input exactly when the input has none of the five characters (so `""` gives `""`) |
| Escaping.EscapeLength | src/utils/escapeSpecialCharacters.ts:3-7 | output length = input length + 4·#`&` + 3·#`<` + 3·#`>` + 5·#`"` + 4·#`'` |
| Escaping.EscapeRoundTrip | src/utils/escapeSpecialCharacters.ts:3-7 | decoding the five entities of the output gives back the input |
| Escaping.EscapeInjective | src/utils/escapeSpecialCharacters.ts:3-7 | two inputs with the same output are equal |
| Escaping.EscapeNotIdempotent | src/utils/escapeSpecialCharacters.ts:3 | on any input with a special character, escaping the output again changes it |
| Escaping.EscapeAmpersandTwice | src/utils/escapeSpecialCharacters.ts:3 | `&` + plain text escapes to `&amp;` + it, and `&amp;` + plain text escapes to `&amp;amp;` + it |
| Sanitization.Sanitize | src/controllers/words.controller.ts:89-90 | `escapeSpecialCharacters(cleanXSS(s))` is markup-free, decodes back to `clean(s)`, and equals `clean(s)` when that has no special character |
| Js.OfField | src/controllers/words.controller.ts:85 | a body field is truthy exactly when it is present and non-empty |
| Js.OfResult | src/controllers/words.controller.ts:204 | an awaited lookup result is truthy exactly when it found a document |
| Messages.ToUpper | src/utils/messages.ts:21 | length kept, each ASCII letter upper-cased position by position |
| Messages.InternalServerError | src/utils/messages.ts:19-25 | `error` is `INTERNAL_SERVER_ERROR` and `statusCode` 500 whatever the arguments; the message is `NO_`, the upper-cased name, `_WITH_THIS_ID_`, then the id verbatim, each at its position |
| Messages.ToUpperIdempotent | src/utils/messages.ts:21 | upper-casing an upper-cased name changes nothing |
| Messages.InternalServerErrorIgnoresNameCase | src/utils/messages.ts:21 | names equal up to case give the same record |
| Messages.WordNamesAgree | src/utils/messages.ts:21 | `'word'` and `'WORD'` give the same record, with message `NO_WORD_WITH_THIS_ID_` + id |
| Messages.SentenceName | src/utils/messages.ts:21 | `'Sentence'` gives the message `NO_SENTENCE_WITH_THIS_ID_` + id |
| Messages.InternalServerErrorIdInjective | src/utils/messages.ts:21 | for one name, the message determines the id (the id is not altered) |
| Http.FirstFalsy | src/controllers/words.controller.ts:85-118 | the position of the first falsy field in checking order: every earlier field is truthy, the one found is not |
| WordService.Skip | src/services/word.service.ts:6 | `(pages-1)*wordsLimit`, used by `FindAllWords` and logged in `GetAllWords`' `FindPage` call: nothing is skipped exactly on page 1 or with a limit of 0 (the only case where page 0 is accepted, since `(0-1)*0` is zero), and the next page starts one full page later |
| WordService.FindAllWords | src/services/word.service.ts:4-13 | the run of the collection starting at `(pages-1)*wordsLimit`, element by element, at most `wordsLimit` long, either a full page or running to the end, empty when the offset is past the end; a limit of 0 returns everything |
| WordService.FirstPageOfCountIsAll | src/services/word.service.ts:6-9 | page 1 with the collection size as limit is the whole collection |
| WordService.SecondPageOfTen | src/services/word.service.ts:6-9 | 25 documents, page 2 of 10: documents 11 to 20 |
| WordService.FirstPages | src/services/word.service.ts:6-9 | pages 1..k concatenated are the first k·limit documents |
| WordService.PagesInOrder | src/services/word.service.ts:6-9 | for p < q, page p ends at or before the position where page q starts: pages are disjoint and in order |
| WordService.AdjacentPages | src/services/word.service.ts:6-9 | pages p and p+1 concatenated are one contiguous run of the collection |
| WordsController.WordFieldsInOrder | src/controllers/words.controller.ts:85-118 | the first missing field is found in the order enWord, esWord, sentence1, sentence2, sentence3; none is missing exactly when all five are non-empty strings |
| WordsController.CheckWordBody | src/controllers/words.controller.ts:85-129 | the guard chain accepts exactly the complete bodies and assembles `en`, `es` and the three sentences, in order, from the sanitized fields |
| WordsController.CheckWordBodyMessage | src/controllers/words.controller.ts:85-118 | a rejection names the first falsy field: `'<field> field empty'` |
| WordsController.CheckedWordIsMarkupFree | src/controllers/words.controller.ts:88-129 | every string of the assembled word is markup-free and decodes back to the stripped field |
| WordsController.GetAllWords | src/controllers/words.controller.ts:16-48 | always 200; page defaults to 1 and page size to the word count; a request with neither returns every word; page ≥ 2 without perPage returns nothing; a page size of 0 returns every word, for any page including 0; the body is the service page |
| WordsController.GetOneWord | src/controllers/words.controller.ts:56-72 | always 200 with the lookup's array (possibly `[]`); the store is asked with the sanitized id |
| WordsController.PostWord | src/controllers/words.controller.ts:79-137 | first falsy field → 400 `'<field> field empty'` and no store call; otherwise one `createWord` call with the sanitized word and 201 with its result |
| WordsController.PostWordStoresSanitizedText | src/controllers/words.controller.ts:124-132 | whatever reaches `createWord` is markup-free, has exactly three sentences, and decodes back to the stripped fields |
| WordsController.PatchWord | src/controllers/words.controller.ts:145-209 | a bad body gets exactly postWord's 400 answer, whatever the id; otherwise it issues one update with the sanitized id and word; `null` gives 500 `internalServerError('word', id)`, a document gives 201 with it |
| WordsController.PatchWordNotFoundUsesRawId | src/controllers/words.controller.ts:196-205 | the not-found message is `NO_WORD_WITH_THIS_ID_` + the raw id: the store sees a markup-free id, but a `<` in the raw id reaches the message |
| WordsController.WordStatusCodes | src/controllers/words.controller.ts:56-236 | getOneWord only 200, postWord 400/201, patchWord 400/500/201, deleteWord only 204; a catalog record always carries the status it is sent with |
| WordsController.DeleteWord | src/controllers/words.controller.ts:217-236 | always 204 with `deleteSuccess`, after one delete call with the sanitized id |
| WordsController.DeleteWordAwaited | src/controllers/words.controller.ts:227-234 | corrected: 500 with `internalServerError('word', id)` exactly when the delete finds nothing, otherwise the as-written answer |
| WordsController.DeleteWordIgnoresMissingWord | src/controllers/words.controller.ts:227-234 | for an id that matches no word, the code answers 204 where the awaited version answers 500 |
| WordsController.GetOneWordChecked | src/controllers/words.controller.ts:63-67 | corrected: 500 exactly when the lookup array is empty, otherwise the as-written answer |
| WordsController.GetOneWordIgnoresMissingWord | src/controllers/words.controller.ts:63-70 | for an id that matches no word, the code answers 200 `[]` where the checked version answers 500 |
| SentenceController.SentenceFieldsInOrder | src/controllers/sentence.controller.ts:34-41 | enSentence is checked before esSentence; none is missing exactly when both are non-empty strings |
| SentenceController.CheckSentenceBody | src/controllers/sentence.controller.ts:34-49 | the guard chain accepts exactly the complete bodies and builds `en`, `es` from the sanitized fields |
| SentenceController.CheckSentenceBodyMessage | src/controllers/sentence.controller.ts:34-41 | a rejection is `'field enSentence is empty'` or `'field esSentence is empty'`, naming the first falsy field |
| SentenceController.GetAllSentences | src/controllers/sentence.controller.ts:10-16 | always 200 with the full sentence list |
| SentenceController.GetOneSentence | src/controllers/sentence.controller.ts:18-30 | always 200, and the body is `{}` (the serialized Promise), never the document |
| SentenceController.PostSentence | src/controllers/sentence.controller.ts:32-55 | first falsy field → 400 and no store call; otherwise one `createSentence` call with the sanitized sentence and 201 with its result |
| SentenceController.PostSentenceStoresSanitizedText | src/controllers/sentence.controller.ts:37-51 | whatever reaches `createSentence` is markup-free and decodes back to the stripped fields |
| SentenceController.PatchSentence | src/controllers/sentence.controller.ts:57-88 | a bad body gets exactly postSentence's 400 answer; otherwise one update with the sanitized id; `null` gives 500 `internalServerError('Sentence', id)`, a document 201 |
| SentenceController.PatchSentenceValidatesBeforeId | src/controllers/sentence.controller.ts:59-81 | with a missing field the answer is 400, without store calls, and the same for every id |
| SentenceController.PatchSentenceNotFoundMessage | src/controllers/sentence.controller.ts:83-84 | the not-found message is `NO_SENTENCE_WITH_THIS_ID_` + the raw id |
| SentenceController.DeleteSentence | src/controllers/sentence.controller.ts:90-102 | always 204 with `deleteSuccess`, after one delete call with the sanitized id |
| SentenceController.SentenceStatusCodes | src/controllers/sentence.controller.ts:10-102 | list and get only 200, post 400/201, patch 400/500/201, delete only 204; a catalog record always carries the status it is sent with |
| SentenceController.GetOneSentenceAwaited | src/controllers/sentence.controller.ts:23-28 | corrected: the found document with 200, or 500 `internalServerError('Sentence', id)` exactly when the lookup gives `null` |
| SentenceController.GetOneSentenceIgnoresLookup | src/controllers/sentence.controller.ts:23-28 | as written the answer is `{}` with 200 for every id, which never equals the awaited answer |
| SentenceController.DeleteSentenceAwaited | src/controllers/sentence.controller.ts:95-100 | corrected: 500 exactly when the delete finds nothing, otherwise the as-written answer |
| SentenceController.DeleteSentenceIgnoresMissingSentence | src/controllers/sentence.controller.ts:95-100 | for an id that matches no sentence, the code answers 204 where the awaited version answers 500 |

## Left out

- `cleanXSS` (sanitize-html) is a foreign library with no visible body. It is the parameter `clean`, and nothing is proved about how it strips tags.
- MongoDB and Mongoose are left out: the schemas, `src/services/sentence.service.ts`, and the `findOneWord`, `createWord`, `findAndUpdateWord` and `findAndDeleteWord` wrappers with `populate`. Their results reach the handlers as store functions. The model does not capture document identity, persistence across requests, or populated sentence references.
- WordsController.GetAllWords: `parseInt` is the parameter `parse`, whose results are naturals. NaN, partial parses and negative numbers are not modelled. With a positive page size, a page of 0 makes a negative skip, which the database rejects, so the method requires a given page to parse to at least 1 in that case. With a page size of 0 the skip `(0-1)*0` is zero and page 0 is allowed: the answer is every word, as for page 1.
- WordsController.GetAllWords: a `perPage` that parses to 0 follows MongoDB's rule that a limit of 0 is no limit. This rule is also what the default page size needs for an empty collection.
- Messages.ToUpper: only upper-cases ASCII letters. JavaScript's full Unicode case mapping (for example `ß` to `SS`) is not modelled, and neither handler needs it.
- Request body fields are absent or strings. Numbers, booleans and objects sent as JSON are not modelled.
- `asyncWrapper` (exceptions forwarded to `next`) and Promise scheduling are left out. The only part of them the model keeps is that an un-awaited call's value is a truthy Promise.
- Express itself is left out: `res.status().json()` becomes the returned response. Express drops the body of a 204 on the wire; the model records the body the handler passes to `json`.
- `deleteSuccess` also has a `data: null` member. It is a constant, so `Messages.DeleteSuccess` keeps only its message and status code.
- `authorizationRequired` is the constant `Messages.AuthorizationRequired`. No handler uses it.
- Express wiring and I/O are left out: `src/app.ts`, `src/index.ts`, `src/routes/*.ts`, `src/config/*.ts`, `src/utils/loggers.ts` and the catch-all not-found handler. They cover environment variables, the HTTP server, CORS, static files and logging.
- The schema types sentence references as ObjectIds, but the handlers store plain strings. The model does not capture how the database casts them.

## Findings

| source | as written | input that shows it | evidently intended | confidence | as-written member | corrected member |
|---|---|---|---|---|---|---|
| src/controllers/words.controller.ts:227-231 | `findAndDeleteWord` is not awaited, so `!data` tests a Promise and is always false | DELETE of an id that matches no word answers 204 `DELETE_SUCCESS` | await the call and answer 500 `internalServerError('word', id)` for `null` | high; not executed | WordsController.DeleteWordIgnoresMissingWord | WordsController.DeleteWordAwaited |
| src/controllers/words.controller.ts:63-67 | `find` returns an array, and `!data` is false even for `[]` | GET of an id that matches no word answers 200 `[]` | test for an empty array and answer 500 `internalServerError('WORD', id)` | high; not executed | WordsController.GetOneWordIgnoresMissingWord | WordsController.GetOneWordChecked |
| src/controllers/sentence.controller.ts:23-28 | `findOneSentence` is not awaited, so the guard tests a Promise and the Promise is sent | GET of any sentence id answers 200 `{}` | await the lookup, send the document, and answer 500 for `null` | high; not executed | SentenceController.GetOneSentenceIgnoresLookup | SentenceController.GetOneSentenceAwaited |
| src/controllers/sentence.controller.ts:95-98 | `findAndDeleteSentence` is not awaited, so `!data` is always false | DELETE of an id that matches no sentence answers 204 | await the call and answer 500 `internalServerError('Sentence', id)` for `null` | high; not executed | SentenceController.DeleteSentenceIgnoresMissingSentence | SentenceController.DeleteSentenceAwaited |
