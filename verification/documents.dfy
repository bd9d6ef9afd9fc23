/**
 * A document as the service stores it (backend/services/documents.py): its cleaned passages
 * and the embedding store built over exactly those passages.
 */
module Documents {
  import opened Wrappers
  import opened PyStr
  import Embedding

  /** Message of the `ValueError` raised when no passage survives cleaning. */
  const EmptyDocumentMessage: string := "Dokümandan anlamlı metin çıkarılamadı."

  /** Passages must be longer than this many characters once stripped. */
  const MinPassageLength: nat := 20

  datatype Document = Document(chunks: seq<string>, store: Embedding.EmbeddingStore)

  /** The filter of the cleaning comprehension: `c and c.strip() and len(c.strip()) > 20`. */
  predicate Keep(c: string) {
    c != "" && Strip(c) != "" && |Strip(c)| > MinPassageLength
  }

  /** The cleaning comprehension `[c.strip() for c in chunks if Keep(c)]`. */
  function Cleaned(chunks: seq<string>): seq<string>
    decreases |chunks|
  {
    if chunks == [] then []
    else
      var last := chunks[|chunks| - 1];
      Cleaned(chunks[..|chunks| - 1]) + (if Keep(last) then [Strip(last)] else [])
  }

  /** Positions of the input chunks that survive cleaning, in increasing order. */
  function KeptPositions(chunks: seq<string>): (ix: seq<nat>)
    ensures forall j :: 0 <= j < |ix| ==> ix[j] < |chunks|
    decreases |chunks|
  {
    if chunks == [] then []
    else
      var n := |chunks| - 1;
      KeptPositions(chunks[..n]) + (if Keep(chunks[n]) then [n] else [])
  }

  /** A passage store is well formed when it indexes exactly its cleaned passages. */
  predicate Valid(d: Document) {
    && d.store.texts == d.chunks
    && d.chunks != []
    && forall i :: 0 <= i < |d.chunks| ==> Strip(d.chunks[i]) == d.chunks[i] && |d.chunks[i]| > MinPassageLength
  }

  /** `DocumentObject(chunks)`: cleans the chunks, fails when none survive, and otherwise
      builds the embedding store over the cleaned passages. */
  function NewDocument(chunks: seq<string>): (r: Result<Document, string>)
    ensures r.Failure? <==> forall c :: c in chunks ==> !Keep(c)
    ensures r.Failure? ==> r.error == EmptyDocumentMessage
    ensures r.Success? ==> Valid(r.value) && r.value.chunks == Cleaned(chunks)
    ensures r.Success? ==> r.value.store.model == Embedding.DefaultModel
  {
    var cleaned := Cleaned(chunks);
    CleanedNonEmpty(chunks);
    if cleaned == [] then
      Failure(EmptyDocumentMessage)
    else
      CleanedPassagesAreClean(chunks);
      match Embedding.BuildIndex(Embedding.DefaultModel, cleaned)
      case Failure(e) => Failure(e)
      case Success(store) => Success(Document(cleaned, store))
  }

  /** The `c` and `c.strip()` tests are implied by the length test. */
  lemma KeepIsLengthTest(c: string)
    ensures Keep(c) <==> |Strip(c)| > MinPassageLength
  {
    if |Strip(c)| > MinPassageLength {
      assert |Strip(c)| <= |c|;
    }
  }

  /** Cleaning appends, one by one, the stripped form of each kept chunk. */
  lemma {:induction false} CleanedAppend(a: seq<string>, b: seq<string>)
    ensures Cleaned(a + b) == Cleaned(a) + Cleaned(b)
    decreases |b|
  {
    if b != [] {
      var n := |b| - 1;
      assert (a + b)[..|a + b| - 1] == a + b[..n];
      assert (a + b)[|a + b| - 1] == b[n];
      CleanedAppend(a, b[..n]);
    } else {
      assert a + b == a;
    }
  }

  /** Every stored passage is already stripped and longer than 20 characters. */
  lemma {:induction false} CleanedPassagesAreClean(chunks: seq<string>)
    ensures forall i :: 0 <= i < |Cleaned(chunks)| ==>
      Strip(Cleaned(chunks)[i]) == Cleaned(chunks)[i] && |Cleaned(chunks)[i]| > MinPassageLength
    decreases |chunks|
  {
    if chunks != [] {
      var n := |chunks| - 1;
      CleanedPassagesAreClean(chunks[..n]);
      StripByIdempotent(chunks[n], IsSpace);
    }
  }

  /** Cleaning produces at most one passage per input chunk. */
  lemma {:induction false} CleanedNoLonger(chunks: seq<string>)
    ensures |Cleaned(chunks)| <= |chunks|
    decreases |chunks|
  {
    if chunks != [] {
      CleanedNoLonger(chunks[..|chunks| - 1]);
    }
  }

  /** Cleaning yields nothing exactly when no chunk passes the filter. */
  lemma {:induction false} CleanedNonEmpty(chunks: seq<string>)
    ensures Cleaned(chunks) == [] <==> forall c :: c in chunks ==> !Keep(c)
    decreases |chunks|
  {
    if chunks != [] {
      var n := |chunks| - 1;
      CleanedNonEmpty(chunks[..n]);
      assert chunks == chunks[..n] + [chunks[n]];
    }
  }

  /** The passages are the stripped kept chunks, in input order: the j-th passage comes
      from the j-th kept position, and a position is kept exactly when its chunk passes. */
  lemma {:induction false} CleanedIsOrderedSelection(chunks: seq<string>)
    ensures |KeptPositions(chunks)| == |Cleaned(chunks)|
    ensures forall j :: 0 <= j < |Cleaned(chunks)| ==>
      Cleaned(chunks)[j] == Strip(chunks[KeptPositions(chunks)[j]])
    ensures forall j, k :: 0 <= j < k < |KeptPositions(chunks)| ==>
      KeptPositions(chunks)[j] < KeptPositions(chunks)[k]
    ensures forall i :: 0 <= i < |chunks| ==> (Keep(chunks[i]) <==> i in KeptPositions(chunks))
    decreases |chunks|
  {
    if chunks != [] {
      var n := |chunks| - 1;
      var init := chunks[..n];
      CleanedIsOrderedSelection(init);
      var ix := KeptPositions(chunks);
      var cl := Cleaned(chunks);
      forall j | 0 <= j < |cl| ensures cl[j] == Strip(chunks[ix[j]]) {
        if j < |Cleaned(init)| {
          assert chunks[KeptPositions(init)[j]] == init[KeptPositions(init)[j]];
        }
      }
      forall i | 0 <= i < |chunks| ensures Keep(chunks[i]) <==> i in ix {
        if i < n {
          assert chunks[i] == init[i];
          assert i != n;
        }
      }
    }
  }

  /** Cleaning the stored passages again changes nothing. */
  lemma {:induction false} CleanedIdempotent(chunks: seq<string>)
    ensures Cleaned(Cleaned(chunks)) == Cleaned(chunks)
    decreases |chunks|
  {
    if chunks != [] {
      var n := |chunks| - 1;
      var last := chunks[n];
      CleanedIdempotent(chunks[..n]);
      if Keep(last) {
        var s := Strip(last);
        StripByIdempotent(last, IsSpace);
        CleanedAppend(Cleaned(chunks[..n]), [s]);
        assert Keep(s);
        assert [s][..0] == [];
        assert Cleaned([s]) == [s];
        assert Cleaned(chunks) == Cleaned(chunks[..n]) + [s];
      } else {
        assert Cleaned(chunks) == Cleaned(chunks[..n]) + [];
        assert Cleaned(chunks[..n]) + [] == Cleaned(chunks[..n]);
      }
    }
  }

  /** A document whose chunks are all short cannot be built. */
  lemma AllShortChunksFail()
    ensures NewDocument(["a", "bb", "ccc"]).Failure?
  {
    var cs := ["a", "bb", "ccc"];
    forall c | c in cs ensures !Keep(c) {
      assert |Strip(c)| <= |c|;
    }
  }
}
