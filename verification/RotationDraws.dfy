/** Which draw of the random source each row of a rotation is sealed with: its own. */
module RotationDraws {
  import opened Wrappers
  import opened Bytes
  import opened Decompression
  import opened UseTable
  import opened Sealing
  import opened RotationSteps

  /** A new content and tag for a row. */
  datatype Update = Update(id: nat, content: seq<Byte>, tag: string)

  /** The random source: the nonce of the n-th sealing, if one can be drawn. */
  type Nonces = nat -> Option<Nonce>

  /** The k-th row is sealed with the k-th nonce drawn from `drawn` on, so no two with the same draw. */
  ghost predicate EachWithItsNonce(a: Aead, page: seq<PageRow>, us: seq<Update>, oldKey: Key, newKey: Key,
                                   nonces: Nonces, drawn: nat)
  {
    && |us| == |page|
    && forall k :: 0 <= k < |page| ==>
         && us[k].id == page[k].id
         && Reseal(a, page[k].content, page[k].tag, page[k].path, oldKey, newKey, nonces(drawn + k))
              == Ok(Resealed(us[k].content, us[k].tag))
  }

  /** The rows of a page hold their updates. */
  ghost predicate WrittenAs(t: Table, page: seq<PageRow>, us: seq<Update>) {
    && |us| == |page|
    && forall k :: 0 <= k < |page| ==>
         && page[k].id in t.rows
         && t.rows[page[k].id].entry.content == us[k].content && t.rows[page[k].id].entry.encoding == us[k].tag
  }

  /** Row `id` is sealed again with draw `n`. */
  ghost predicate Drawn(a: Aead, t0: Table, t: Table, nonces: Nonces, oldKey: Key, newKey: Key, id: nat, n: nat) {
    && id in t0.rows && id in t.rows
    && var before, after := t0.rows[id], t.rows[id].entry;
       Reseal(a, before.entry.content, before.entry.encoding, before.path, oldKey, newKey, nonces(n))
         == Ok(Resealed(after.content, after.encoding))
  }

  /** Each row of `draws` is sealed with the draw it names, one of the first `drawn`. */
  ghost predicate SealedByDraws(a: Aead, t0: Table, t: Table, nonces: Nonces, draws: map<nat, nat>, drawn: nat,
                                oldKey: Key, newKey: Key)
  {
    forall id <- draws :: draws[id] < drawn && Drawn(a, t0, t, nonces, oldKey, newKey, id, draws[id])
  }

  /** No two rows name the same draw. */
  ghost predicate Differ(draws: map<nat, nat>) {
    forall x <- draws, y <- draws :: draws[x] == draws[y] ==> x == y
  }

  /** Each row of `draws` is sealed with a draw of its own. */
  ghost predicate OwnDraws(a: Aead, t0: Table, t: Table, nonces: Nonces, draws: map<nat, nat>, drawn: nat, oldKey: Key,
                           newKey: Key)
  {
    SealedByDraws(a, t0, t, nonces, draws, drawn, oldKey, newKey) && Differ(draws)
  }

  /** Where a row is in a page. */
  ghost function IndexOf(page: seq<PageRow>, id: nat): (k: nat)
    requires id in PageIds(page)
    ensures k < |page| && page[k].id == id
  {
    var k: nat :| k < |page| && PageIds(page)[k] == id;
    k
  }

  /** The draws of a page: from `drawn` on, row by row. */
  ghost function PageDraws(page: seq<PageRow>, drawn: nat): (draws: map<nat, nat>) {
    map id | id in PageIds(page) :: drawn + IndexOf(page, id)
  }

  /** A row of a page is as it was before the sweep. */
  lemma PageRowIsUntouched(a: Aead, t0: Table, t: Table, ns: string, after: string, page: seq<PageRow>, oldKey: Key,
                           newKey: Key, k: nat)
    requires Swept(a, t0, t, ns, after, oldKey, newKey) && PageRows(t, ns, after, page) && k < |page|
    ensures page[k].id in t0.rows && page[k] == PageRowOf(page[k].id, t0.rows[page[k].id])
  {
    assert page[k] in page;
    PathLessIsStrict(after, page[k].path);
  }

  /** Row `k` of a page is sealed with draw `drawn + k`. */
  lemma PageRowDraw(a: Aead, t0: Table, t: Table, t': Table, ns: string, after: string, page: seq<PageRow>,
                    us: seq<Update>, nonces: Nonces, drawn: nat, oldKey: Key, newKey: Key, k: nat)
    requires Swept(a, t0, t, ns, after, oldKey, newKey) && PageRows(t, ns, after, page) && k < |page|
    requires WrittenAs(t', page, us) && EachWithItsNonce(a, page, us, oldKey, newKey, nonces, drawn)
    ensures Drawn(a, t0, t', nonces, oldKey, newKey, page[k].id, drawn + k)
  {
    PageRowIsUntouched(a, t0, t, ns, after, page, oldKey, newKey, k);
  }

  lemma PageRowsDrawn(a: Aead, t0: Table, t: Table, t': Table, ns: string, after: string, page: seq<PageRow>,
                      us: seq<Update>, nonces: Nonces, drawn: nat, oldKey: Key, newKey: Key)
    requires Swept(a, t0, t, ns, after, oldKey, newKey) && PageRows(t, ns, after, page)
    requires WrittenAs(t', page, us) && EachWithItsNonce(a, page, us, oldKey, newKey, nonces, drawn)
    ensures forall k :: 0 <= k < |page| ==> Drawn(a, t0, t', nonces, oldKey, newKey, page[k].id, drawn + k)
  {
    forall k | 0 <= k < |page|
      ensures Drawn(a, t0, t', nonces, oldKey, newKey, page[k].id, drawn + k)
    {
      PageRowDraw(a, t0, t, t', ns, after, page, us, nonces, drawn, oldKey, newKey, k);
    }
  }

  lemma DrawOf(page: seq<PageRow>, drawn: nat, id: nat)
    requires id in PageDraws(page, drawn)
    ensures var k := PageDraws(page, drawn)[id] - drawn; 0 <= k < |page| && page[k].id == id
  {
  }

  /** The rows of a page are sealed with the draws from `drawn` on. */
  lemma PageIsDrawn(a: Aead, t0: Table, t: Table, page: seq<PageRow>, nonces: Nonces, drawn: nat, oldKey: Key,
                    newKey: Key)
    requires forall k :: 0 <= k < |page| ==> Drawn(a, t0, t, nonces, oldKey, newKey, page[k].id, drawn + k)
    ensures SealedByDraws(a, t0, t, nonces, PageDraws(page, drawn), drawn + |page|, oldKey, newKey)
  {
    var draws := PageDraws(page, drawn);
    forall id | id in draws
      ensures draws[id] < drawn + |page| && Drawn(a, t0, t, nonces, oldKey, newKey, id, draws[id])
    {
      DrawOf(page, drawn, id);
      var k := draws[id] - drawn;
      assert Drawn(a, t0, t, nonces, oldKey, newKey, page[k].id, drawn + k);
    }
  }

  /** The draws of a page are new, one for each of its rows. */
  lemma PageDrawsDiffer(page: seq<PageRow>, drawn: nat)
    ensures var more := PageDraws(page, drawn);
            && Differ(more) && (forall id <- more :: more[id] >= drawn)
            && forall id :: id in more <==> id in PageIds(page)
  {
  }

  /** The rows sealed before keep their draws. */
  lemma DrawsAreKept(a: Aead, t0: Table, t: Table, t': Table, ids: seq<nat>, nonces: Nonces, draws: map<nat, nat>,
                     drawn: nat, oldKey: Key, newKey: Key)
    requires SealedByDraws(a, t0, t, nonces, draws, drawn, oldKey, newKey) && forall id <- ids :: id !in draws
    requires Written(a, t, t', ids, oldKey, newKey)
    ensures SealedByDraws(a, t0, t', nonces, draws, drawn, oldKey, newKey)
  {
    forall id | id in draws
      ensures Drawn(a, t0, t', nonces, oldKey, newKey, id, draws[id])
    {
      KeptDraw(a, t0, t, t', ids, nonces, draws, drawn, oldKey, newKey, id);
    }
  }

  lemma DrawsJoin(a: Aead, t0: Table, t: Table, nonces: Nonces, draws: map<nat, nat>, more: map<nat, nat>, drawn: nat,
                  n: nat, oldKey: Key, newKey: Key)
    requires SealedByDraws(a, t0, t, nonces, draws, drawn, oldKey, newKey) && Differ(draws)
    requires SealedByDraws(a, t0, t, nonces, more, drawn + n, oldKey, newKey) && Differ(more)
    requires forall id <- more :: more[id] >= drawn
    ensures OwnDraws(a, t0, t, nonces, draws + more, drawn + n, oldKey, newKey)
  {
    MoreDiffer(draws, more, drawn);
  }

  /** A page seals each of its rows with a draw no row had before. */
  lemma PageHasOwnDraws(a: Aead, t0: Table, t: Table, t': Table, ns: string, after: string, page: seq<PageRow>,
                        us: seq<Update>, nonces: Nonces, draws: map<nat, nat>, drawn: nat, oldKey: Key, newKey: Key)
    requires Swept(a, t0, t, ns, after, oldKey, newKey) && PageRows(t, ns, after, page)
    requires NoneMissed(t, ns, after, page) && page != []
    requires Written(a, t, t', PageIds(page), oldKey, newKey) && WrittenAs(t', page, us)
    requires EachWithItsNonce(a, page, us, oldKey, newKey, nonces, drawn)
    requires OwnDraws(a, t0, t, nonces, draws, drawn, oldKey, newKey) && draws.Keys == Done(t0, ns, after)
    ensures OwnDraws(a, t0, t', nonces, draws + PageDraws(page, drawn), drawn + |page|, oldKey, newKey)
    ensures (draws + PageDraws(page, drawn)).Keys == Done(t0, ns, PageLast(after, page))
  {
    DoneOfPage(a, t0, t, t', ns, after, page, oldKey, newKey);
    PageDrawsDiffer(page, drawn);
    PageRowsDrawn(a, t0, t, t', ns, after, page, us, nonces, drawn, oldKey, newKey);
    PageIsDrawn(a, t0, t', page, nonces, drawn, oldKey, newKey);
    DrawsAreKept(a, t0, t, t', PageIds(page), nonces, draws, drawn, oldKey, newKey);
    DrawsJoin(a, t0, t', nonces, draws, PageDraws(page, drawn), drawn, |page|, oldKey, newKey);
  }

  /** A row that is not of the page keeps its draw. */
  lemma KeptDraw(a: Aead, t0: Table, t: Table, t': Table, ids: seq<nat>, nonces: Nonces, draws: map<nat, nat>,
                 drawn: nat, oldKey: Key, newKey: Key, id: nat)
    requires SealedByDraws(a, t0, t, nonces, draws, drawn, oldKey, newKey) && id in draws && id !in ids
    requires Written(a, t, t', ids, oldKey, newKey)
    ensures Drawn(a, t0, t', nonces, oldKey, newKey, id, draws[id])
  {
  }

  lemma MoreDiffer(draws: map<nat, nat>, more: map<nat, nat>, drawn: nat)
    requires Differ(draws) && Differ(more)
    requires (forall id <- draws :: draws[id] < drawn) && forall id <- more :: more[id] >= drawn
    ensures Differ(draws + more)
  {
  }

  /** The rows reached by the end of a page are those reached before it and its own. */
  lemma DoneOfPage(a: Aead, t0: Table, t: Table, t': Table, ns: string, after: string, page: seq<PageRow>, oldKey: Key,
                   newKey: Key)
    requires Swept(a, t0, t, ns, after, oldKey, newKey) && page != []
    requires PageRows(t, ns, after, page) && NoneMissed(t, ns, after, page)
    requires Written(a, t, t', PageIds(page), oldKey, newKey)
    ensures forall id :: id in Done(t0, ns, PageLast(after, page)) <==> id in Done(t0, ns, after) || id in PageIds(page)
    ensures forall id <- PageIds(page) :: id !in Done(t0, ns, after)
  {
    forall id
      ensures id in Done(t0, ns, PageLast(after, page)) <==> id in Done(t0, ns, after) || id in PageIds(page)
      ensures id in PageIds(page) ==> id !in Done(t0, ns, after)
    {
      if id in t0.rows {
        SweepRow(a, t0, t, t', ns, after, page, oldKey, newKey, id);
      } else if id in PageIds(page) {
        PageRowIsNotPast(t, ns, after, page, id);
      }
    }
  }
}
