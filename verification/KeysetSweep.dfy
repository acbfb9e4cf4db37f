/** The keyset sweep of a list that may change between pages (adapters/mule_api/client.py, `_collect`): each request
    asks for the rows above the last hash read, never for a position. */
module KeysetSweep {
  import opened Options
  import opened Order

  const PAGE_SIZE: nat := 500

  /** A row of the answer; a malformed one has no hash. */
  datatype Item = Item(hash: Option<string>)

  function Hashes(rows: seq<Item>): (hashes: seq<string>)
    ensures forall h :: h in hashes <==> Item(Some(h)) in rows
  {
    if rows == [] then []
    else
      var front, last := Hashes(rows[..|rows| - 1]), rows[|rows| - 1];
      assert rows == rows[..|rows| - 1] + [last];
      if last.hash.Some? then front + [last.hash.value] else front
  }

  lemma {:induction false} HashesConcat(a: seq<Item>, b: seq<Item>)
    ensures Hashes(a + b) == Hashes(a) + Hashes(b)
  {
    if b == [] {
      assert a + b == a;
    } else {
      assert (a + b)[..|a + b| - 1] == a + b[..|b| - 1];
      HashesConcat(a, b[..|b| - 1]);
    }
  }

  predicate Beyond(anchor: Option<string>, h: string) {
    anchor.None? || Below(anchor.value, h)
  }

  /** The first rows above the anchor, in hash order, of the list as it is when the page is served; rows without a
      hash may lie anywhere between. */
  ghost predicate IsPage(page: seq<Item>, listing: set<string>, anchor: Option<string>) {
    && |page| <= 500 && Ascending(Hashes(page), Below)
    && (forall h :: h in Hashes(page) ==> h in listing && Beyond(anchor, h))
    && (forall h :: h in listing && Beyond(anchor, h) && h !in Hashes(page) ==>
          |page| == 500 && forall x :: x in Hashes(page) ==> Below(x, h))
  }

  /** `server(i, anchor)` answers the i-th request; `None` is an unexpected envelope. */
  ghost predicate Serves(server: (nat, Option<string>) -> Option<seq<Item>>, listing: nat -> set<string>,
                         universe: set<string>) {
    && (forall i :: listing(i) <= universe)
    && forall i, anchor :: server(i, anchor).Some? ==> IsPage(server(i, anchor).value, listing(i), anchor)
  }

  ghost predicate PresentThroughout(listing: nat -> set<string>, requests: nat, h: string) {
    forall i :: 0 <= i < requests ==> h in listing(i)
  }

  ghost predicate PresentOnce(listing: nat -> set<string>, requests: nat, h: string) {
    exists i :: 0 <= i < requests && h in listing(i)
  }

  /** Every hash read was listed when it was. */
  ghost predicate Genuine(hs: seq<string>, listing: nat -> set<string>, requests: nat) {
    forall h :: h in hs ==> PresentOnce(listing, requests, h)
  }

  /** No hash that was listed throughout is missing, up to the anchor. */
  ghost predicate NoneMissing(hs: seq<string>, anchor: Option<string>, listing: nat -> set<string>, requests: nat) {
    forall h :: PresentThroughout(listing, requests, h) && !Beyond(anchor, h) ==> h in hs
  }

  ghost predicate Whole(hs: seq<string>, listing: nat -> set<string>, requests: nat) {
    forall h :: PresentThroughout(listing, requests, h) ==> h in hs
  }

  /** Between two requests: nothing read yet, or everything up to the anchor. */
  ghost predicate Swept(hs: seq<string>, anchor: Option<string>, listing: nat -> set<string>, requests: nat) {
    && Ascending(hs, Below) && Genuine(hs, listing, requests)
    && if anchor.None? then hs == [] && requests == 0
       else (forall h :: h in hs ==> !Beyond(anchor, h)) && NoneMissing(hs, anchor, listing, requests)
  }

  ghost function Ahead(universe: set<string>, anchor: Option<string>): set<string> {
    set h | h in universe && Beyond(anchor, h)
  }

  ghost function HashesAhead(universe: set<string>, anchor: Option<string>): nat { |Ahead(universe, anchor)| }

  /** The hash to go on from: that of the last row read. */
  function Anchor(rows: seq<Item>): Option<string> {
    if rows == [] then None else rows[|rows| - 1].hash
  }

  /** The sweep's last answer was a full page that ends in a row without a hash: there is nothing to go on from. */
  ghost predicate Stuck(server: (nat, Option<string>) -> Option<seq<Item>>, rows: seq<Item>, requests: nat) {
    && requests > 0 && |rows| >= PAGE_SIZE && rows[|rows| - 1] == Item(None)
    && server(requests - 1, Anchor(rows[..|rows| - PAGE_SIZE])) == Some(rows[|rows| - PAGE_SIZE..])
  }

  /** No hash is returned twice, every hash returned was listed, and the sweep returns every hash that stayed in the
      list from the first page to the last; unless it was cut short by an unexpected answer, or by a full page that
      ends in a row without a hash. */
  method Collect(server: (nat, Option<string>) -> Option<seq<Item>>, ghost listing: nat -> set<string>,
                 ghost universe: set<string>)
    returns (rows: seq<Item>, requests: nat, complete: bool)
    requires Serves(server, listing, universe)
    ensures Ascending(Hashes(rows), Below)
    ensures Genuine(Hashes(rows), listing, requests)
    ensures complete ==> Whole(Hashes(rows), listing, requests)
    ensures !complete ==>
      || server(requests, Anchor(rows)).None?
      || Stuck(server, rows, requests)
  {
    rows, requests, complete := [], 0, false;
    var anchor: Option<string> := None;
    while true
      invariant Swept(Hashes(rows), anchor, listing, requests)
      invariant anchor == Anchor(rows)
      decreases HashesAhead(universe, anchor)
    {
      var answer := server(requests, anchor);
      if answer.None? {
        return;
      }
      var page := answer.value;
      RowsExtend(rows, anchor, listing, requests, page);
      ghost var before := rows;
      rows := rows + page;
      requests := requests + 1;
      if |page| < PAGE_SIZE {
        complete := true;
        return;
      }
      if Anchor(page).None? {
        StopsHere(server, before, page, requests - 1);
        return;
      }
      AnchorAdvances(universe, listing(requests - 1), anchor, page);
      anchor := Anchor(page);
    }
  }

  lemma StopsHere(server: (nat, Option<string>) -> Option<seq<Item>>, rows: seq<Item>, page: seq<Item>, requests: nat)
    requires server(requests, Anchor(rows)) == Some(page) && |page| == PAGE_SIZE && Anchor(page).None?
    ensures Stuck(server, rows + page, requests + 1)
  {
    assert (rows + page)[..|rows|] == rows && (rows + page)[|rows|..] == page;
  }

  /** A hash that is read comes after all that were read before. */
  lemma PageAbove(hs: seq<string>, anchor: Option<string>, listing: nat -> set<string>, requests: nat, page: seq<Item>)
    requires Swept(hs, anchor, listing, requests) && IsPage(page, listing(requests), anchor)
    ensures forall r, x :: r in hs && x in Hashes(page) ==> Below(r, x)
  {
    forall r, x | r in hs && x in Hashes(page) ensures Below(r, x) {
      assert !Beyond(anchor, r) && Beyond(anchor, x);
      BelowTotal(anchor.value, r);
      if r != anchor.value {
        BelowTransitive(r, anchor.value, x);
      }
    }
  }

  /** One page more. */
  lemma PageExtends(hs: seq<string>, anchor: Option<string>, listing: nat -> set<string>, requests: nat,
                    page: seq<Item>)
    requires Swept(hs, anchor, listing, requests) && IsPage(page, listing(requests), anchor)
    ensures Ascending(hs + Hashes(page), Below) && Genuine(hs + Hashes(page), listing, requests + 1)
    ensures |page| < PAGE_SIZE ==> Whole(hs + Hashes(page), listing, requests + 1)
    ensures page != [] && page[|page| - 1].hash.Some? ==>
      Swept(hs + Hashes(page), page[|page| - 1].hash, listing, requests + 1)
  {
    PageAbove(hs, anchor, listing, requests, page);
    JoinAscends(hs, Hashes(page));
    PageGenuine(hs, anchor, listing, requests, page);
    if |page| < PAGE_SIZE {
      ShortPage(hs, anchor, listing, requests, page);
    }
    if page != [] && page[|page| - 1].hash.Some? {
      LastIsGreatest(hs, anchor, listing, requests, page);
    }
  }

  lemma RowsExtend(rows: seq<Item>, anchor: Option<string>, listing: nat -> set<string>, requests: nat, page: seq<Item>)
    requires Swept(Hashes(rows), anchor, listing, requests) && IsPage(page, listing(requests), anchor)
    ensures Ascending(Hashes(rows + page), Below) && Genuine(Hashes(rows + page), listing, requests + 1)
    ensures |page| < PAGE_SIZE ==> Whole(Hashes(rows + page), listing, requests + 1)
    ensures page != [] ==> Anchor(rows + page) == Anchor(page)
    ensures Anchor(page).Some? ==> Swept(Hashes(rows + page), Anchor(page), listing, requests + 1)
  {
    HashesConcat(rows, page);
    PageExtends(Hashes(rows), anchor, listing, requests, page);
  }

  lemma PageGenuine(hs: seq<string>, anchor: Option<string>, listing: nat -> set<string>, requests: nat,
                    page: seq<Item>)
    requires Genuine(hs, listing, requests) && IsPage(page, listing(requests), anchor)
    ensures Genuine(hs + Hashes(page), listing, requests + 1)
  {
    forall h | h in hs + Hashes(page) ensures PresentOnce(listing, requests + 1, h) {
      if h in hs {
        assert PresentOnce(listing, requests, h);
      } else {
        assert h in listing(requests);
      }
    }
  }

  /** A hash listed throughout, this page included, was read before or is ahead of the anchor. */
  lemma StillListed(hs: seq<string>, anchor: Option<string>, listing: nat -> set<string>, requests: nat, h: string)
    requires Swept(hs, anchor, listing, requests) && PresentThroughout(listing, requests + 1, h)
    ensures h in listing(requests) && (h in hs || Beyond(anchor, h))
  {
    assert PresentThroughout(listing, requests, h);
  }

  lemma ShortPage(hs: seq<string>, anchor: Option<string>, listing: nat -> set<string>, requests: nat, page: seq<Item>)
    requires Swept(hs, anchor, listing, requests) && IsPage(page, listing(requests), anchor) && |page| < PAGE_SIZE
    ensures Whole(hs + Hashes(page), listing, requests + 1)
  {
    forall h | PresentThroughout(listing, requests + 1, h) ensures h in hs + Hashes(page) {
      StillListed(hs, anchor, listing, requests, h);
    }
  }

  lemma JoinAscends(a: seq<string>, b: seq<string>)
    requires Ascending(a, Below) && Ascending(b, Below) && forall x, y :: x in a && y in b ==> Below(x, y)
    ensures Ascending(a + b, Below)
  {
    forall i, j | 0 <= i < j < |a + b| ensures Below((a + b)[i], (a + b)[j]) {
      if i < |a| <= j {
        assert a[i] in a && b[j - |a|] in b;
      }
    }
  }

  lemma LastHash(page: seq<Item>)
    requires page != [] && page[|page| - 1].hash.Some? && Ascending(Hashes(page), Below)
    ensures page[|page| - 1].hash.value in Hashes(page)
    ensures forall h :: h in Hashes(page) ==> h == page[|page| - 1].hash.value || Below(h, page[|page| - 1].hash.value)
  {
    var hs := Hashes(page);
    assert hs[|hs| - 1] == page[|page| - 1].hash.value;
  }

  /** The last row of a page is the greatest hash read so far, and bounds what is still ahead. */
  lemma LastIsGreatest(hs: seq<string>, anchor: Option<string>, listing: nat -> set<string>, requests: nat,
                       page: seq<Item>)
    requires Swept(hs, anchor, listing, requests) && IsPage(page, listing(requests), anchor)
    requires page != [] && page[|page| - 1].hash.Some?
    ensures forall h :: h in hs + Hashes(page) ==> !Beyond(page[|page| - 1].hash, h)
    ensures NoneMissing(hs + Hashes(page), page[|page| - 1].hash, listing, requests + 1)
  {
    var last := page[|page| - 1].hash.value;
    LastHash(page);
    PageAbove(hs, anchor, listing, requests, page);
    forall h | h in hs + Hashes(page) ensures !Below(last, h) {
      NotBelow(h, last);
    }
    forall h | PresentThroughout(listing, requests + 1, h) && !Below(last, h) ensures h in hs + Hashes(page) {
      StillListed(hs, anchor, listing, requests, h);
      if h !in hs {
        OnPage(page, listing(requests), anchor, last, h);
      }
    }
  }

  /** A listed hash ahead of the anchor and not after a hash of the page is on the page. */
  lemma OnPage(page: seq<Item>, listing: set<string>, anchor: Option<string>, x: string, h: string)
    requires IsPage(page, listing, anchor) && x in Hashes(page) && h in listing && Beyond(anchor, h) && !Below(x, h)
    ensures h in Hashes(page)
  {
  }

  lemma NotBelow(h: string, last: string)
    requires h == last || Below(h, last)
    ensures !Below(last, h)
  {
    BelowIrreflexive(last);
    if Below(last, h) && Below(h, last) {
      BelowTransitive(last, h, last);
    }
  }

  /** Each full page that ends in a hash leaves strictly fewer hashes ahead of the anchor. */
  lemma AnchorAdvances(universe: set<string>, listing: set<string>, anchor: Option<string>, page: seq<Item>)
    requires listing <= universe && IsPage(page, listing, anchor) && Anchor(page).Some?
    ensures HashesAhead(universe, Anchor(page)) < HashesAhead(universe, anchor)
  {
    var last := page[|page| - 1].hash.value;
    LastHash(page);
    BelowIrreflexive(last);
    var before, after := Ahead(universe, anchor), Ahead(universe, Some(last));
    forall h | h in after ensures h in before {
      if anchor.Some? {
        BelowTransitive(anchor.value, last, h);
      }
    }
    ProperSubsetSize(after, before, last);
  }

  lemma {:induction false} ProperSubsetSize(a: set<string>, b: set<string>, x: string)
    requires a <= b && x in b && x !in a
    ensures |a| < |b|
    decreases |b|
  {
    if a != {} {
      var y :| y in a;
      ProperSubsetSize(a - {y}, b - {y}, x);
    }
  }
}
