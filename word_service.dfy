/** `findAllWords` of src/services/word.service.ts: page `pages` of size
    `wordsLimit` over the word collection, in storage order. The other
    functions of that file are single library calls; the controllers receive
    their results as parameters. */
module WordService {
  import opened Entities

  function Min(a: int, b: int): int { if a <= b then a else b }

  /** The number of documents skipped before page `pages` (1-based). With a
      page size of 0 any page, page 0 included, skips nothing. */
  function Skip(pages: nat, wordsLimit: nat): (s: nat)
    requires pages >= 1 || wordsLimit == 0
    ensures s == 0 <==> pages == 1 || wordsLimit == 0
    ensures s + wordsLimit == pages * wordsLimit
  {
    (pages - 1) * wordsLimit
  }

  /** `WordModel.find().skip(skip).limit(wordsLimit)`: the run of the
      collection that starts at `skip`, at most `wordsLimit` long, clipped to
      the end of the collection. A limit of 0 is no limit, as in MongoDB. */
  function FindAllWords(words: seq<WordDoc>, pages: nat, wordsLimit: nat): (r: seq<WordDoc>)
    requires pages >= 1 || wordsLimit == 0
    ensures |r| <= |words|
    ensures forall k :: 0 <= k < |r| ==>
      Skip(pages, wordsLimit) + k < |words| && r[k] == words[Skip(pages, wordsLimit) + k]
    ensures wordsLimit > 0 ==> |r| <= wordsLimit
    ensures Skip(pages, wordsLimit) >= |words| ==> r == []
    ensures Skip(pages, wordsLimit) < |words| ==>
      |r| == wordsLimit || Skip(pages, wordsLimit) + |r| == |words|
    ensures wordsLimit == 0 ==> r == words
  {
    var skip := Skip(pages, wordsLimit);
    if skip >= |words| then []
    else if wordsLimit == 0 then words[skip..]
    else words[skip..Min(skip + wordsLimit, |words|)]
  }

  /** Page 1 with the collection's size as limit is the whole collection. */
  lemma FirstPageOfCountIsAll(words: seq<WordDoc>)
    ensures FindAllWords(words, 1, |words|) == words
  {
  }

  /** 25 documents, page 2 of 10: documents 11 to 20. */
  lemma SecondPageOfTen(words: seq<WordDoc>)
    requires |words| == 25
    ensures FindAllWords(words, 2, 10) == words[10..20]
  {
  }

  /** Pages 1 to k, one after the other. */
  function PagesUpTo(words: seq<WordDoc>, k: nat, wordsLimit: nat): seq<WordDoc> {
    if k == 0 then [] else PagesUpTo(words, k - 1, wordsLimit) + FindAllWords(words, k, wordsLimit)
  }

  /** Reading pages 1 to k in turn yields the first k * limit documents. */
  lemma {:induction false} FirstPages(words: seq<WordDoc>, k: nat, wordsLimit: nat)
    requires wordsLimit >= 1
    ensures PagesUpTo(words, k, wordsLimit) == words[..Min(k * wordsLimit, |words|)]
  {
    if k > 0 {
      FirstPages(words, k - 1, wordsLimit);
      var start := Skip(k, wordsLimit);
      NextPageStart(k, wordsLimit);
      if start < |words| {
        SliceSplit(words, start, Min(start + wordsLimit, |words|));
      }
    }
  }

  lemma NextPageStart(k: nat, wordsLimit: nat)
    requires k >= 1
    ensures (k - 1) * wordsLimit == Skip(k, wordsLimit)
    ensures k * wordsLimit == (k - 1) * wordsLimit + wordsLimit
  {
  }

  lemma SliceSplit(words: seq<WordDoc>, a: nat, b: nat)
    requires a <= b <= |words|
    ensures words[..a] + words[a..b] == words[..b]
  {
  }

  /** A page ends where the next one starts, so pages never share a document
      position and appear in collection order. */
  lemma PagesInOrder(words: seq<WordDoc>, p: nat, q: nat, wordsLimit: nat)
    requires 1 <= p < q && wordsLimit >= 1
    ensures Skip(p, wordsLimit) + |FindAllWords(words, p, wordsLimit)| <= Skip(q, wordsLimit)
  {
    assert (q - 1) * wordsLimit >= p * wordsLimit by {
      MulMonotone(p, q - 1, wordsLimit);
    }
    assert p * wordsLimit == (p - 1) * wordsLimit + wordsLimit;
  }

  lemma MulMonotone(a: nat, b: nat, c: nat)
    requires a <= b
    ensures a * c <= b * c
  {
  }

  /** Pages p and p + 1 together are one contiguous run. */
  lemma AdjacentPages(words: seq<WordDoc>, p: nat, wordsLimit: nat)
    requires p >= 1 && wordsLimit >= 1
    ensures FindAllWords(words, p, wordsLimit) + FindAllWords(words, p + 1, wordsLimit)
         == words[Min(Skip(p, wordsLimit), |words|)..Min(Skip(p + 1, wordsLimit) + wordsLimit, |words|)]
  {
    var s := Skip(p, wordsLimit);
    assert Skip(p + 1, wordsLimit) == s + wordsLimit;
    if s < |words| && s + wordsLimit < |words| {
      assert words[s..Min(s + wordsLimit, |words|)] + words[s + wordsLimit..Min(s + 2 * wordsLimit, |words|)]
          == words[s..Min(s + 2 * wordsLimit, |words|)];
    }
  }
}
