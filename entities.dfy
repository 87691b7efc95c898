/** The two entities: the objects the controllers build and the documents
    the store returns. */
module Entities {

  /** A word as the controllers assemble it: English and Spanish lemma and
      the example sentences, stored as the strings the request gave. */
  datatype Word = Word(en: string, es: string, sentences: seq<string>)

  /** A sentence pair. */
  datatype Sentence = Sentence(en: string, es: string)

  /** A stored word: the store's identifier and the saved fields. */
  datatype WordDoc = WordDoc(id: string, word: Word)

  /** A stored sentence. */
  datatype SentenceDoc = SentenceDoc(id: string, sentence: Sentence)
}
