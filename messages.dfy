/** The response message catalog of src/utils/messages.ts. */
module Messages {

  /** The two shapes of catalog record. */
  datatype Notice =
    /** `{ message, data: null, statusCode }` */
    | Success(message: string, statusCode: int)
    /** `{ message, error, statusCode }` */
    | Failure(message: string, error: string, statusCode: int)

  const DeleteSuccess: Notice := Success("DELETE_SUCCESS", 204)

  const AuthorizationRequired: Notice := Failure("AUTHORIZATION_REQUIRED", "UNAUTHORIZED", 401)

  const NoPrefix: string := "NO_"
  const WithThisId: string := "_WITH_THIS_ID_"

  /** Upper case of one character, for the ASCII letters. */
  function UpperChar(c: char): char {
    if 'a' <= c <= 'z' then (c as int - 32) as char else c
  }

  /** `String.prototype.toUpperCase`, restricted to ASCII letters. */
  function ToUpper(s: string): (r: string)
    ensures |r| == |s|
    ensures forall i :: 0 <= i < |s| ==> r[i] == UpperChar(s[i])
  {
    if s == [] then [] else [UpperChar(s[0])] + ToUpper(s[1..])
  }

  /** `internalServerError(name, id)`: the message is `NO_`, the upper-cased
      name, `_WITH_THIS_ID_` and the id as given. */
  function InternalServerError(name: string, id: string): (r: Notice)
    ensures r.Failure? && r.error == "INTERNAL_SERVER_ERROR" && r.statusCode == 500
    ensures |r.message| == |NoPrefix| + |name| + |WithThisId| + |id|
    ensures r.message[..3] == NoPrefix
    ensures r.message[3..3 + |name|] == ToUpper(name)
    ensures r.message[3 + |name|..17 + |name|] == WithThisId
    ensures r.message[17 + |name|..] == id
  {
    var message := NoPrefix + ToUpper(name) + WithThisId + id;
    assert message[3 + |name|..17 + |name|] == WithThisId;
    Failure(message, "INTERNAL_SERVER_ERROR", 500)
  }

  /** Upper-casing twice is upper-casing once. */
  lemma {:induction false} ToUpperIdempotent(s: string)
    ensures ToUpper(ToUpper(s)) == ToUpper(s)
  {
    if s != [] {
      ToUpperIdempotent(s[1..]);
      assert ToUpper(s)[1..] == ToUpper(s[1..]);
    }
  }

  /** The name is only seen upper-cased: names that agree up to ASCII case
      give the same record, so `'word'` and `'WORD'` report alike. */
  lemma InternalServerErrorIgnoresNameCase(a: string, b: string, id: string)
    requires ToUpper(a) == ToUpper(b)
    ensures InternalServerError(a, id) == InternalServerError(b, id)
  {
  }

  lemma WordNamesAgree(id: string)
    ensures InternalServerError("word", id) == InternalServerError("WORD", id)
    ensures InternalServerError("word", id).message == "NO_WORD_WITH_THIS_ID_" + id
  {
    UpperLiterals();
    PrefixLiterals();
  }

  lemma SentenceName(id: string)
    ensures InternalServerError("Sentence", id).message == "NO_SENTENCE_WITH_THIS_ID_" + id
  {
    UpperLiterals();
    PrefixLiterals();
  }

  lemma UpperLiterals()
    ensures ToUpper("word") == "WORD" && ToUpper("WORD") == "WORD"
    ensures ToUpper("Sentence") == "SENTENCE"
  {
    var w, w', s := ToUpper("word"), ToUpper("WORD"), ToUpper("Sentence");
    forall i | 0 <= i < 4 ensures w[i] == "WORD"[i] && w'[i] == "WORD"[i] {}
    forall i | 0 <= i < 8 ensures s[i] == "SENTENCE"[i] {}
  }

  lemma PrefixLiterals()
    ensures NoPrefix + "WORD" + WithThisId == "NO_WORD_WITH_THIS_ID_"
    ensures NoPrefix + "SENTENCE" + WithThisId == "NO_SENTENCE_WITH_THIS_ID_"
  {
  }

  /** The id is embedded verbatim: for one name, the message determines the id. */
  lemma InternalServerErrorIdInjective(name: string, a: string, b: string)
    requires InternalServerError(name, a).message == InternalServerError(name, b).message
    ensures a == b
  {
    var m := InternalServerError(name, a).message;
    assert a == m[17 + |name|..];
  }
}
