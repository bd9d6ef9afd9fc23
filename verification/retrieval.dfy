/**
 * Global candidate ranking (backend/services/qa_service.py, `retrieve_globally_relevant_chunks`).
 * Every document's vector store is searched for the question; the hits of all documents,
 * in document order and with duplicates kept, are ranked by their similarity to the question
 * and the best `max_chunks` of them are returned. The nearest-neighbour search and the
 * similarity are oracles passed in as functions.
 */
module Retrieval {
  import Embedding
  import Documents

  /** The faiss oracle: the neighbour labels of a question among the given texts, k of them. */
  type Neighbours = (seq<string>, string, int) -> seq<int>

  /** The similarity oracle: how close a candidate is to the question under an embedding
      model, larger being closer. */
  type Similarity = (string, string, string) -> int

  /** The hits of one document's store for the question. */
  function Hits(question: string, d: Documents.Document, k: int, faiss: Neighbours): seq<string> {
    Embedding.Search(d.store, faiss(d.store.texts, question, k))
  }

  /** Every document's hits, one document after the other. */
  function Candidates(question: string, docs: seq<Documents.Document>, k: int, faiss: Neighbours): (c: seq<string>)
    ensures docs == [] ==> c == []
    ensures forall t :: t in c ==> exists i :: 0 <= i < |docs| && t in docs[i].store.texts
  {
    if docs == [] then []
    else
      var rest := Candidates(question, docs[1..], k, faiss);
      assert forall t :: t in rest ==> exists i :: 1 <= i < |docs| && t in docs[i].store.texts by {
        forall t | t in rest ensures exists i :: 1 <= i < |docs| && t in docs[i].store.texts {
          var j :| 0 <= j < |docs[1..]| && t in docs[1..][j].store.texts;
          assert docs[j + 1] == docs[1..][j];
        }
      }
      Hits(question, docs[0], k, faiss) + rest
  }

  /** Candidates of consecutive document lists are the concatenation of their candidates:
      the hits keep document order and nothing is merged or dropped. */
  lemma {:induction false} CandidatesAppend(question: string, a: seq<Documents.Document>, b: seq<Documents.Document>, k: int, faiss: Neighbours)
    ensures Candidates(question, a + b, k, faiss) == Candidates(question, a, k, faiss) + Candidates(question, b, k, faiss)
  {
    if a == [] {
      assert a + b == b;
    } else {
      assert (a + b)[1..] == a[1..] + b;
      CandidatesAppend(question, a[1..], b, k, faiss);
    }
  }

  /** Asking the same document twice yields its hits twice. */
  lemma CandidatesKeepDuplicates(question: string, d: Documents.Document, k: int, faiss: Neighbours)
    ensures Candidates(question, [d, d], k, faiss) == Hits(question, d, k, faiss) + Hits(question, d, k, faiss)
  {
    assert [d, d][1..] == [d];
    assert [d][1..] == [];
  }

  /** In a document built from cleaned chunks, every candidate is one of its passages. */
  lemma CandidatesAreChunks(question: string, docs: seq<Documents.Document>, k: int, faiss: Neighbours)
    requires forall i :: 0 <= i < |docs| ==> Documents.Valid(docs[i])
    ensures forall t :: t in Candidates(question, docs, k, faiss) ==>
      exists i :: 0 <= i < |docs| && t in docs[i].chunks
  {
  }

  /** `xs` is in non-increasing order of `key`. */
  predicate RankedBy(xs: seq<string>, key: string -> int) {
    forall i, j :: 0 <= i < j < |xs| ==> key(xs[i]) >= key(xs[j])
  }

  /** Puts `x` into a ranked list after every element that outranks it. */
  function Insert(x: string, xs: seq<string>, key: string -> int): (r: seq<string>)
    requires RankedBy(xs, key)
    ensures multiset(r) == multiset(xs) + multiset{x}
    ensures forall t :: t in r ==> t == x || t in xs
    ensures RankedBy(r, key)
  {
    if xs == [] || key(x) >= key(xs[0]) then [x] + xs
    else
      var rest := Insert(x, xs[1..], key);
      BelowHead(x, xs, rest, key);
      RankedCons(xs[0], rest, key);
      assert xs == [xs[0]] + xs[1..];
      [xs[0]] + rest
  }

  /** What is drawn from the tail of a ranked list, and an element the head outranks, ranks
      no higher than the head. */
  lemma BelowHead(x: string, xs: seq<string>, rest: seq<string>, key: string -> int)
    requires xs != [] && RankedBy(xs, key) && key(x) < key(xs[0])
    requires forall t :: t in rest ==> t == x || t in xs[1..]
    ensures forall t :: t in rest ==> key(t) <= key(xs[0])
  {
    forall t | t in rest ensures key(t) <= key(xs[0]) {
      if t != x {
        var i :| 1 <= i < |xs| && xs[i] == t;
      }
    }
  }

  /** A ranked list stays ranked under a head that outranks all of it. */
  lemma RankedCons(h: string, rest: seq<string>, key: string -> int)
    requires RankedBy(rest, key)
    requires forall t :: t in rest ==> key(t) <= key(h)
    ensures RankedBy([h] + rest, key)
  {
    var r := [h] + rest;
    forall i, j | 0 <= i < j < |r| ensures key(r[i]) >= key(r[j]) {
      assert r[j] == rest[j - 1];
      if i > 0 {
        assert r[i] == rest[i - 1];
      }
    }
  }

  /** The candidates in non-increasing order of `key`; ties keep no promised order. */
  function Rank(xs: seq<string>, key: string -> int): (r: seq<string>)
    ensures multiset(r) == multiset(xs)
    ensures RankedBy(r, key)
  {
    if xs == [] then []
    else
      assert xs == [xs[0]] + xs[1..];
      Insert(xs[0], Rank(xs[1..], key), key)
  }

  /** Where Python's `xs[:stop]` ends on a list of length n: a negative stop counts from
      the end. */
  function SliceStop(n: nat, stop: int): (e: nat)
    ensures e <= n
    ensures stop >= 0 ==> e == if stop < n then stop else n
    ensures stop < 0 ==> e + (if -stop < n then -stop else n) == n
  {
    if stop >= 0 then (if stop < n then stop else n)
    else if n + stop > 0 then n + stop else 0
  }

  /** How relevant a candidate is to the question under the given embedding model. */
  function Relevance(score: Similarity, model: string, question: string): string -> int {
    c => score(model, question, c)
  }

  /** `retrieve_globally_relevant_chunks`: no candidates, no contexts (and the first
      document's model is not consulted); otherwise the candidates ranked by their relevance
      under the first document's embedding model, cut after `maxChunks`. */
  function Retrieve(question: string, docs: seq<Documents.Document>, kPerDoc: int, maxChunks: int,
                    faiss: Neighbours, score: Similarity): (r: seq<string>)
    ensures Candidates(question, docs, kPerDoc, faiss) == [] ==> r == []
    ensures multiset(r) <= multiset(Candidates(question, docs, kPerDoc, faiss))
    ensures r != [] ==> docs != [] && RankedBy(r, Relevance(score, docs[0].store.model, question))
    ensures maxChunks >= 0 ==>
      var n := |Candidates(question, docs, kPerDoc, faiss)|;
      |r| == if maxChunks < n then maxChunks else n
    ensures docs != [] ==>
      var key := Relevance(score, docs[0].store.model, question);
      forall x, y :: x in multiset(Candidates(question, docs, kPerDoc, faiss)) - multiset(r) && y in r ==>
        key(x) <= key(y)
  {
    var candidates := Candidates(question, docs, kPerDoc, faiss);
    if candidates == [] then []
    else
      var key := Relevance(score, docs[0].store.model, question);
      var ranked := Rank(candidates, key);
      var top := ranked[..SliceStop(|ranked|, maxChunks)];
      TopOfRanking(ranked, key, |top|);
      top
  }

  /** Cutting a ranked list leaves it ranked, and whatever is cut off ranks no higher than
      anything kept. */
  lemma TopOfRanking(ranked: seq<string>, key: string -> int, e: nat)
    requires e <= |ranked| && RankedBy(ranked, key)
    ensures multiset(ranked[..e]) <= multiset(ranked)
    ensures RankedBy(ranked[..e], key)
    ensures forall x, y :: x in multiset(ranked) - multiset(ranked[..e]) && y in ranked[..e] ==>
      key(x) <= key(y)
  {
    var top, rest := ranked[..e], ranked[e..];
    assert ranked == top + rest;
    assert multiset(ranked) - multiset(top) == multiset(rest);
    forall x, y | x in multiset(ranked) - multiset(top) && y in top
      ensures key(x) <= key(y)
    {
      assert x in rest;
      CutBelowKept(ranked, key, e, x, y);
    }
  }

  /** An element after the cut ranks no higher than one before it. */
  lemma CutBelowKept(ranked: seq<string>, key: string -> int, e: nat, x: string, y: string)
    requires e <= |ranked| && RankedBy(ranked, key)
    requires x in ranked[e..] && y in ranked[..e]
    ensures key(x) <= key(y)
  {
    var i :| e <= i < |ranked| && ranked[i] == x;
    var j :| 0 <= j < e && ranked[j] == y;
  }

  /** The contexts are passages of the documents asked about. */
  lemma RetrievedAreChunks(question: string, docs: seq<Documents.Document>, kPerDoc: int, maxChunks: int,
                           faiss: Neighbours, score: Similarity)
    requires forall i :: 0 <= i < |docs| ==> Documents.Valid(docs[i])
    ensures forall t :: t in Retrieve(question, docs, kPerDoc, maxChunks, faiss, score) ==>
      exists i :: 0 <= i < |docs| && t in docs[i].chunks
  {
    var r := Retrieve(question, docs, kPerDoc, maxChunks, faiss, score);
    var c := Candidates(question, docs, kPerDoc, faiss);
    forall t | t in r ensures exists i :: 0 <= i < |docs| && t in docs[i].chunks {
      assert t in multiset(r);
      assert t in multiset(c);
      assert t in c;
    }
  }
}
