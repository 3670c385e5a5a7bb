/**
 * The before-send hook `pageBeforeSend`: record the local form of the current
 * URL of the page and of the piece being served in their `historicUrls`.
 */
module Recorder {
  import opened Wrappers
  import opened Urls
  import opened Documents

  /** The stored `historicUrls` of each document, by `_id`. */
  type Store = map<DocId, seq<string>>

  /**
   * The filter of the hook: the document has a `_url` and the copy served with
   * the request does not list its local form anywhere in `historicUrls`.
   */
  predicate NeedsRecording(doc: Doc) {
    doc.url != "" && Local(doc.url) !in doc.historicUrls
  }

  /** `req.data.page`, then `req.data.piece`, each when present; the same document may come twice. */
  function Attached(page: Option<Doc>, piece: Option<Doc>): (docs: seq<Doc>)
    ensures |docs| == (if page.Some? then 1 else 0) + (if piece.Some? then 1 else 0)
    ensures page.Some? ==> docs[0] == page.value
    ensures piece.Some? ==> docs[|docs| - 1] == piece.value
  {
    (if page.Some? then [page.value] else []) + (if piece.Some? then [piece.value] else [])
  }

  /** `_.filter(docs, …)`: the documents that need recording, in their order. */
  function Pending(docs: seq<Doc>): (r: seq<Doc>)
    ensures |r| <= |docs|
    ensures forall d :: d in r <==> d in docs && NeedsRecording(d)
  {
    if docs == [] then []
    else
      var rest := Pending(docs[1..]);
      assert forall d :: d in docs <==> d == docs[0] || d in docs[1..];
      if NeedsRecording(docs[0]) then [docs[0]] + rest else rest
  }

  /** The filter keeps the order of its input: filtering one more document appends it or nothing. */
  lemma {:induction false} PendingSnoc(docs: seq<Doc>, d: Doc)
    ensures Pending(docs + [d]) == Pending(docs) + (if NeedsRecording(d) then [d] else [])
  {
    if docs != [] {
      assert (docs + [d])[1..] == docs[1..] + [d];
      PendingSnoc(docs[1..], d);
    } else {
      assert Pending([d][1..]) == [];
    }
  }

  /** What the hook records, in order: the page when it needs recording, then the piece when it does. */
  lemma PendingAttached(page: Option<Doc>, piece: Option<Doc>)
    ensures Pending(Attached(page, piece))
      == (if page.Some? && NeedsRecording(page.value) then [page.value] else [])
       + (if piece.Some? && NeedsRecording(piece.value) then [piece.value] else [])
  {
    var first := if page.Some? then [page.value] else [];
    assert Pending(first) == (if page.Some? && NeedsRecording(page.value) then [page.value] else []) by {
      if page.Some? {
        assert first[1..] == [];
      }
    }
    if piece.Some? {
      PendingSnoc(first, piece.value);
    } else {
      assert Attached(page, piece) == first;
    }
  }

  /**
   * `update({_id: id}, {$addToSet: {historicUrls: u}})`: `u` is appended when
   * the document exists and does not list it yet; no other document changes.
   */
  function AddToSet(store: Store, id: DocId, u: string): (r: Store)
    ensures r.Keys == store.Keys
    ensures forall k :: k in store && k != id ==> r[k] == store[k]
    ensures id in store && u in store[id] ==> r[id] == store[id]
    ensures id in store && u !in store[id] ==> r[id] == store[id] + [u]
  {
    if id in store && u !in store[id] then store[id := store[id] + [u]] else store
  }

  /** The updates of `docs`, one after the other: every stored document stays, and its list only grows. */
  function ApplyUpdates(store: Store, docs: seq<Doc>): (r: Store)
    ensures forall k :: k in store ==> k in r && store[k] <= r[k]
  {
    if docs == [] then store
    else
      var last := docs[|docs| - 1];
      AddToSet(ApplyUpdates(store, docs[..|docs| - 1]), last.id, Local(last.url))
  }

  /** The updates store no new document. */
  lemma {:induction false} ApplyUpdatesKeys(store: Store, docs: seq<Doc>)
    ensures forall k :: k in ApplyUpdates(store, docs) ==> k in store
  {
    if docs != [] {
      ApplyUpdatesKeys(store, docs[..|docs| - 1]);
    }
  }

  /**
   * How many updates are applied when the one at position `failAt` reports an
   * error: all before it, or all of them when `failAt` is past the last one.
   */
  function Attempted(count: nat, failAt: nat): (n: nat)
    ensures n <= count && n <= failAt
    ensures n == count || n == failAt
  {
    if failAt < count then failAt else count
  }

  /** One more update of the series. */
  lemma ApplyUpdatesNext(store: Store, docs: seq<Doc>, i: nat)
    requires i < |docs|
    ensures ApplyUpdates(store, docs[..i + 1])
      == AddToSet(ApplyUpdates(store, docs[..i]), docs[i].id, Local(docs[i].url))
  {
    assert docs[..i + 1][..i] == docs[..i];
  }

  /**
   * `async.eachSeries` over the updates: they run one at a time; the one at
   * position `failAt`, when there is one, reports an error, is not applied,
   * and ends the run.
   */
  method RunUpdates(store: Store, docs: seq<Doc>, failAt: nat) returns (newStore: Store, failed: bool)
    ensures newStore == ApplyUpdates(store, docs[..Attempted(|docs|, failAt)])
    ensures failed <==> Attempted(|docs|, failAt) < |docs|
  {
    newStore := store;
    var i := 0;
    assert docs[..0] == [];
    while i < |docs| && i != failAt
      invariant 0 <= i <= |docs| && i <= failAt
      invariant newStore == ApplyUpdates(store, docs[..i])
    {
      var doc := docs[i];
      ApplyUpdatesNext(store, docs, i);
      newStore := AddToSet(newStore, doc.id, Local(doc.url));
      i := i + 1;
    }
    failed := i < |docs|;
  }

  /** `pageBeforeSend`: the page, then the piece; the filter; then the updates. */
  method PageBeforeSend(config: Config, store: Store, page: Option<Doc>, piece: Option<Doc>, failAt: nat)
    returns (newStore: Store, failed: bool)
    ensures !config.enable ==> newStore == store && !failed
    ensures config.enable ==>
      var pending := Pending(Attached(page, piece));
      newStore == ApplyUpdates(store, pending[..Attempted(|pending|, failAt)])
      && (failed <==> Attempted(|pending|, failAt) < |pending|)
  {
    if !config.enable {
      return store, false;
    }
    var docs: seq<Doc> := [];
    if page.Some? {
      docs := docs + [page.value];
    }
    if piece.Some? {
      docs := docs + [piece.value];
    }
    assert docs == Attached(page, piece);
    docs := Pending(docs);
    newStore, failed := RunUpdates(store, docs, failAt);
  }

  /** No URL is listed twice. */
  ghost predicate NoDuplicates(urls: seq<string>) {
    forall i, j :: 0 <= i < j < |urls| ==> urls[i] != urls[j]
  }

  ghost predicate StoreNoDuplicates(store: Store) {
    forall k :: k in store ==> NoDuplicates(store[k])
  }

  /** A document that none of `docs` names keeps its list. */
  lemma {:induction false} ApplyUpdatesUntouched(store: Store, docs: seq<Doc>, k: DocId)
    requires k in store && forall d :: d in docs ==> d.id != k
    ensures ApplyUpdates(store, docs)[k] == store[k]
  {
    if docs != [] {
      var init := docs[..|docs| - 1];
      assert forall d :: d in init ==> d in docs;
      ApplyUpdatesUntouched(store, init, k);
    }
  }

  /** Every URL a list gains is the local form of the `_url` of a document of `docs` with that id. */
  lemma {:induction false} ApplyUpdatesOnlyAdds(store: Store, docs: seq<Doc>, k: DocId, u: string)
    requires k in store && u in ApplyUpdates(store, docs)[k] && u !in store[k]
    ensures exists d :: d in docs && d.id == k && Local(d.url) == u
  {
    var init := docs[..|docs| - 1];
    var last := docs[|docs| - 1];
    var mid := ApplyUpdates(store, init);
    if u in mid[k] {
      ApplyUpdatesOnlyAdds(store, init, k, u);
      var d :| d in init && d.id == k && Local(d.url) == u;
      assert d in docs;
    } else {
      assert last in docs;
    }
  }

  /** After the updates, every document of `docs` that is stored lists the local form of its `_url`. */
  lemma {:induction false} ApplyUpdatesRecords(store: Store, docs: seq<Doc>)
    ensures forall d :: d in docs && d.id in store ==> Local(d.url) in ApplyUpdates(store, docs)[d.id]
  {
    if docs != [] {
      var init := docs[..|docs| - 1];
      var last := docs[|docs| - 1];
      ApplyUpdatesRecords(store, init);
      var mid := ApplyUpdates(store, init);
      forall d | d in docs && d.id in store ensures Local(d.url) in ApplyUpdates(store, docs)[d.id] {
        if d != last {
          assert d in init;
          assert mid[d.id] <= ApplyUpdates(store, docs)[d.id];
        }
      }
    }
  }

  /** One `$addToSet` adds no duplicate. */
  lemma AddToSetNoDuplicates(store: Store, id: DocId, u: string)
    requires StoreNoDuplicates(store)
    ensures StoreNoDuplicates(AddToSet(store, id, u))
  {
    if id in store && u !in store[id] {
      var urls := store[id] + [u];
      assert NoDuplicates(store[id]);
      forall i, j | 0 <= i < j < |urls| ensures urls[i] != urls[j] {
        if j == |urls| - 1 {
          assert urls[i] in store[id];
        }
      }
    }
  }

  /** Set semantics: a store without duplicate URLs keeps none. */
  lemma {:induction false} ApplyUpdatesNoDuplicates(store: Store, docs: seq<Doc>)
    requires StoreNoDuplicates(store)
    ensures StoreNoDuplicates(ApplyUpdates(store, docs))
  {
    if docs != [] {
      var last := docs[|docs| - 1];
      ApplyUpdatesNoDuplicates(store, docs[..|docs| - 1]);
      AddToSetNoDuplicates(ApplyUpdates(store, docs[..|docs| - 1]), last.id, Local(last.url));
    }
  }

  /** Updates whose URLs are all listed already change nothing. */
  lemma {:induction false} ApplyUpdatesListed(store: Store, docs: seq<Doc>)
    requires forall d :: d in docs && d.id in store ==> Local(d.url) in store[d.id]
    ensures ApplyUpdates(store, docs) == store
  {
    if docs != [] {
      var init := docs[..|docs| - 1];
      assert forall d :: d in init ==> d in docs;
      ApplyUpdatesListed(store, init);
    }
  }

  /** Running the same updates twice is the same as running them once. */
  lemma ApplyUpdatesIdempotent(store: Store, docs: seq<Doc>)
    ensures ApplyUpdates(ApplyUpdates(store, docs), docs) == ApplyUpdates(store, docs)
  {
    ApplyUpdatesRecords(store, docs);
    ApplyUpdatesKeys(store, docs);
    ApplyUpdatesListed(ApplyUpdates(store, docs), docs);
  }

  /** The document as the next request serves it, with its stored `historicUrls`. */
  function Refreshed(store: Store, doc: Option<Doc>): (r: Option<Doc>)
    ensures r.Some? <==> doc.Some?
    ensures doc.Some? && doc.value.id in store ==> r.value.historicUrls == store[doc.value.id]
  {
    if doc.Some? && doc.value.id in store then Some(doc.value.(historicUrls := store[doc.value.id])) else doc
  }

  /**
   * A second identical request, served with what the first one stored, has
   * nothing left to record: its filter keeps no document. (Both requests serve
   * the documents as stored.)
   */
  lemma SecondRunRecordsNothing(store: Store, page: Option<Doc>, piece: Option<Doc>)
    requires page.Some? ==> page.value.id in store && page.value.historicUrls == store[page.value.id]
    requires piece.Some? ==> piece.value.id in store && piece.value.historicUrls == store[piece.value.id]
    ensures
      var stored := ApplyUpdates(store, Pending(Attached(page, piece)));
      Pending(Attached(Refreshed(stored, page), Refreshed(stored, piece))) == []
  {
    var served := Attached(page, piece);
    var pending := Pending(served);
    var stored := ApplyUpdates(store, pending);
    ApplyUpdatesRecords(store, pending);
    forall orig | orig in served ensures !NeedsRecording(orig.(historicUrls := stored[orig.id])) {
      assert orig.id in store && orig.historicUrls == store[orig.id];
      if orig.url != "" && Local(orig.url) !in orig.historicUrls {
        assert orig in pending;
      }
    }
    var again := Attached(Refreshed(stored, page), Refreshed(stored, piece));
    forall d | d in again ensures !NeedsRecording(d) {
      if page.Some? && d == again[0] {
        assert page.value in served;
      } else {
        assert piece.value in served;
      }
    }
  }

  /** The page and the piece being the same document needing recording: its URL is still added only once. */
  lemma SameDocumentTwice(store: Store, doc: Doc)
    requires NeedsRecording(doc) && doc.id in store && Local(doc.url) !in store[doc.id]
    ensures Pending(Attached(Some(doc), Some(doc))) == [doc, doc]
    ensures ApplyUpdates(store, [doc, doc])[doc.id] == store[doc.id] + [Local(doc.url)]
  {
    var u := Local(doc.url);
    assert [doc, doc][..1] == [doc];
    assert [doc][..0] == [];
    assert ApplyUpdates(store, [doc][..0]) == store;
    var once := ApplyUpdates(store, [doc]);
    assert once == AddToSet(store, doc.id, u);
    assert once[doc.id] == store[doc.id] + [u];
    assert ApplyUpdates(store, [doc, doc]) == AddToSet(once, doc.id, u);
  }
}
