/**
 * The per-document vector store (backend/services/embedding_service.py). Embeddings and the
 * faiss nearest-neighbour search are oracles: a search yields the neighbour labels that
 * `IndexFlatL2.search` returns, which are positions of stored texts, padded with -1 when
 * fewer than k texts are stored.
 */
module Embedding {
  import opened Wrappers

  /** Name of the sentence-embedding model every store loads. */
  const DefaultModel: string := "sentence-transformers/all-MiniLM-L6-v2"

  /** Message of the error raised when there is nothing to index. */
  const NoTextsMessage: string := "Index oluşturmak için metin yok."

  /** A built store: the embedding model it uses and the texts it indexes, by position. */
  datatype EmbeddingStore = EmbeddingStore(model: string, texts: seq<string>)

  /** Building an index over no texts fails; otherwise the store indexes the texts in order. */
  function BuildIndex(model: string, texts: seq<string>): (r: Result<EmbeddingStore, string>)
    ensures r.Failure? <==> texts == []
    ensures r.Failure? ==> r.error == NoTextsMessage
    ensures r.Success? ==> r.value.texts == texts && r.value.model == model
  {
    if texts == [] then Failure(NoTextsMessage) else Success(EmbeddingStore(model, texts))
  }

  /** The index built over some texts answers a label with the text at that position:
      every stored text is found again by its own position, and by nothing else. */
  lemma BuiltIndexLabelsNameTexts(model: string, texts: seq<string>, i: int)
    requires texts != []
    ensures BuildIndex(model, texts).Success?
    ensures 0 <= i < |texts| ==> Search(BuildIndex(model, texts).value, [i]) == [texts[i]]
    ensures !(0 <= i < |texts|) ==> Search(BuildIndex(model, texts).value, [i]) == []
  {
    var store := BuildIndex(model, texts).value;
    assert [i][1..] == [];
  }

  /** What faiss promises of the labels of one query: each is -1 (no neighbour) or a
      position of a stored text, and no position is reported twice. */
  predicate FaissLabels(labels: seq<int>, n: nat) {
    && (forall i :: 0 <= i < |labels| ==> -1 <= labels[i] < n)
    && (forall i, j :: 0 <= i < j < |labels| && labels[i] >= 0 ==> labels[i] != labels[j])
  }

  /** `search` as written: keeps every label below `len(texts)`, so a -1 padding label
      passes the test and Python's `texts[-1]` yields the last stored text. */
  function SearchAsWritten(store: EmbeddingStore, labels: seq<int>): (r: seq<string>)
    requires store.texts != [] && FaissLabels(labels, |store.texts|)
    ensures |r| == |labels|
    ensures forall i :: 0 <= i < |r| ==> r[i] in store.texts
  {
    if labels == [] then []
    else
      var l := labels[0];
      var t := if l >= 0 then store.texts[l] else store.texts[|store.texts| + l];
      [t] + SearchAsWritten(store, labels[1..])
  }

  /** `search` as intended: only labels that name a stored text yield a result. */
  function Search(store: EmbeddingStore, labels: seq<int>): (r: seq<string>)
    ensures |r| <= |labels|
    ensures forall t :: t in r ==> t in store.texts
    ensures forall i :: 0 <= i < |labels| && 0 <= labels[i] < |store.texts| ==> store.texts[labels[i]] in r
  {
    if labels == [] then []
    else
      var rest := Search(store, labels[1..]);
      if 0 <= labels[0] < |store.texts| then [store.texts[labels[0]]] + rest else rest
  }

  /** Labels that name a stored text. */
  function ValidLabels(labels: seq<int>, n: nat): (v: seq<nat>)
    ensures forall i :: 0 <= i < |v| ==> v[i] < n
    ensures forall x :: x in v <==> x in labels && 0 <= x < n
  {
    if labels == [] then []
    else if 0 <= labels[0] < n then [labels[0] as nat] + ValidLabels(labels[1..], n)
    else ValidLabels(labels[1..], n)
  }

  lemma {:induction false} SearchIsValidLabels(store: EmbeddingStore, labels: seq<int>)
    ensures |Search(store, labels)| == |ValidLabels(labels, |store.texts|)|
  {
    if labels != [] {
      SearchIsValidLabels(store, labels[1..]);
    }
  }

  /** No element occurs twice. */
  predicate Distinct(v: seq<nat>) {
    forall i, j :: 0 <= i < j < |v| ==> v[i] != v[j]
  }

  lemma {:induction false} ValidLabelsDistinct(labels: seq<int>, n: nat)
    requires FaissLabels(labels, n)
    ensures Distinct(ValidLabels(labels, n))
  {
    if labels != [] {
      var tail := labels[1..];
      assert FaissLabels(tail, n) by {
        forall i, j | 0 <= i < j < |tail| && tail[i] >= 0 ensures tail[i] != tail[j] {
          assert tail[i] == labels[i + 1] && tail[j] == labels[j + 1];
        }
      }
      ValidLabelsDistinct(tail, n);
      var v := ValidLabels(labels, n);
      var rest := ValidLabels(tail, n);
      if 0 <= labels[0] < n {
        assert v == [labels[0] as nat] + rest;
        forall i, j | 0 <= i < j < |v| ensures v[i] != v[j] {
          assert v[j] == rest[j - 1];
          if i == 0 {
            assert rest[j - 1] in rest;
            var k :| 0 <= k < |tail| && tail[k] == rest[j - 1];
            assert labels[k + 1] == tail[k];
            assert v[0] == labels[0] && labels[0] != labels[k + 1];
          } else {
            assert v[i] == rest[i - 1];
          }
        }
      } else {
        assert v == rest;
      }
    }
  }

  /** A sequence of distinct naturals below n has at most n elements. */
  lemma {:induction false} DistinctBelow(v: seq<nat>, n: nat)
    requires forall i :: 0 <= i < |v| ==> v[i] < n
    requires Distinct(v)
    ensures |v| <= n
    decreases n
  {
    if |v| > 0 {
      assert v[0] < n;
      var rest := Without(v, n - 1);
      forall i | 0 <= i < |rest| ensures rest[i] < n - 1 {
        assert rest[i] in rest;
      }
      DistinctBelow(rest, n - 1);
    }
  }

  /** `v` with every occurrence of `x` removed. */
  function Without(v: seq<nat>, x: nat): (r: seq<nat>)
    ensures forall y :: y in r <==> y in v && y != x
    ensures x !in v ==> r == v
    ensures Distinct(v) ==> Distinct(r) && |v| <= |r| + 1
  {
    if v == [] then []
    else
      var rest := Without(v[1..], x);
      if v[0] == x then
        assert Distinct(v) ==> x !in v[1..];
        rest
      else
        assert Distinct(v) ==> v[0] !in rest;
        [v[0]] + rest
  }

  /** With faiss's labels, the intended search returns at most one text per stored text
      and no more texts than were asked for. */
  lemma SearchWithinStore(store: EmbeddingStore, labels: seq<int>)
    requires FaissLabels(labels, |store.texts|)
    ensures |Search(store, labels)| <= |store.texts|
    ensures |Search(store, labels)| <= |labels|
  {
    var n := |store.texts|;
    SearchIsValidLabels(store, labels);
    ValidLabelsDistinct(labels, n);
    DistinctBelow(ValidLabels(labels, n), n);
  }

  /** Whenever faiss pads (more neighbours asked for than texts stored), the search as
      written returns more texts than the store holds. */
  lemma SearchAsWrittenOverfills(store: EmbeddingStore, labels: seq<int>)
    requires store.texts != [] && FaissLabels(labels, |store.texts|)
    requires |labels| > |store.texts|
    ensures |SearchAsWritten(store, labels)| > |store.texts|
  {
  }

  /** A one-passage document searched with k = 3: faiss reports the text once and pads
      with -1, and the search as written returns that text three times. */
  lemma SearchAsWrittenRepeatsLastText(a: string)
    ensures FaissLabels([0, -1, -1], 1)
    ensures SearchAsWritten(EmbeddingStore(DefaultModel, [a]), [0, -1, -1]) == [a, a, a]
    ensures Search(EmbeddingStore(DefaultModel, [a]), [0, -1, -1]) == [a]
  {
    var store := EmbeddingStore(DefaultModel, [a]);
    assert [0, -1, -1][1..] == [-1, -1];
    assert [-1, -1][1..] == [-1];
    assert [-1][1..] == [];
    assert SearchAsWritten(store, [-1]) == [a];
    assert SearchAsWritten(store, [-1, -1]) == [a, a];
    assert Search(store, [-1]) == [];
    assert Search(store, [-1, -1]) == [];
  }

  /** The labels with each -1 replaced by the last position: what Python's `texts[-1]`
      makes of the padding. */
  function PaddingToLast(labels: seq<int>, n: nat): (r: seq<int>)
    requires n > 0 && forall i :: 0 <= i < |labels| ==> -1 <= labels[i] < n
    ensures |r| == |labels|
    ensures forall i :: 0 <= i < |r| ==> 0 <= r[i] < n
    ensures forall i :: 0 <= i < |r| ==> r[i] == if labels[i] >= 0 then labels[i] else n - 1
  {
    if labels == [] then []
    else [if labels[0] >= 0 then labels[0] else n - 1] + PaddingToLast(labels[1..], n)
  }

  /** The search as written is the intended search over relabelled neighbours. So any
      output of the search as written is an output of the intended search for some
      labels, and what is proved of the intended search over arbitrary labels also holds
      of the code as written. */
  lemma {:induction false} AsWrittenIsSearchOfRelabelled(store: EmbeddingStore, labels: seq<int>)
    requires store.texts != [] && FaissLabels(labels, |store.texts|)
    ensures Search(store, PaddingToLast(labels, |store.texts|)) == SearchAsWritten(store, labels)
  {
    if labels != [] {
      var n := |store.texts|;
      var tail := labels[1..];
      assert FaissLabels(tail, n) by {
        forall i, j | 0 <= i < j < |tail| && tail[i] >= 0 ensures tail[i] != tail[j] {
          assert tail[i] == labels[i + 1] && tail[j] == labels[j + 1];
        }
      }
      AsWrittenIsSearchOfRelabelled(store, tail);
      var r := PaddingToLast(labels, n);
      assert r[1..] == PaddingToLast(tail, n);
    }
  }
}
