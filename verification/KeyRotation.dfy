/** Rotating the encryption key: a paged sweep of a namespace inside one transaction. */
module KeyRotation {
  import opened Wrappers
  import opened Bytes
  import opened Decompression
  import opened UseTable
  import opened UseStore
  import opened Sealing
  import opened SealTags
  import opened RotationSteps
  import opened RotationDraws

  datatype RotationError =
    | ReadOnly
    | MissingKey
    | InvalidNewKey(length: nat)
    | Failed(error: FormatError)

  ghost predicate NeverFails(nonces: Nonces) {
    forall n :: nonces(n).Some?
  }

  /** `u` is the payload of `row`, sealed again. */
  ghost predicate SealedAgain(a: Aead, row: PageRow, u: Update, oldKey: Key, newKey: Key) {
    && u.id == row.id
    && exists nonce: Nonce ::
         Reseal(a, row.content, row.tag, row.path, oldKey, newKey, Some(nonce)) == Ok(Resealed(u.content, u.tag))
  }

  ghost predicate AllSealedAgain(a: Aead, page: seq<PageRow>, us: seq<Update>, oldKey: Key, newKey: Key) {
    |us| == |page| && forall k :: 0 <= k < |page| ==> SealedAgain(a, page[k], us[k], oldKey, newKey)
  }

  lemma EachIsSealedAgain(a: Aead, page: seq<PageRow>, us: seq<Update>, oldKey: Key, newKey: Key, nonces: Nonces,
                          drawn: nat)
    requires EachWithItsNonce(a, page, us, oldKey, newKey, nonces, drawn)
    ensures AllSealedAgain(a, page, us, oldKey, newKey)
  {
    forall k | 0 <= k < |page|
      ensures SealedAgain(a, page[k], us[k], oldKey, newKey)
    {
      ResealsIff(a, page[k].content, page[k].tag, page[k].path, oldKey, newKey, nonces(drawn + k));
      var nonce: Nonce := nonces(drawn + k).value;
      assert Reseal(a, page[k].content, page[k].tag, page[k].path, oldKey, newKey, Some(nonce))
          == Ok(Resealed(us[k].content, us[k].tag));
    }
  }

  /** A row of a page that cannot be sealed again. */
  ghost predicate Unrotatable(a: Aead, t: Table, page: seq<PageRow>, oldKey: Key) {
    exists k :: 0 <= k < |page| && page[k].id in t.rows && !Rotatable(a, t.rows[page[k].id], oldKey)
  }

  lemma WriteRow(a: Aead, t: Table, t1: Table, t2: Table, written: seq<nat>, row: PageRow, u: Update, oldKey: Key,
                 newKey: Key)
    requires row.id in t.rows && row == PageRowOf(row.id, t.rows[row.id]) && row.id !in written
    requires SealedAgain(a, row, u, oldKey, newKey) && Written(a, t, t1, written, oldKey, newKey)
    requires t2 == t1.(rows := t1.rows[row.id := WithPayload(t1.rows[row.id], u.content, u.tag)])
    ensures Written(a, t, t2, written + [row.id], oldKey, newKey)
  {
    RowIsRotated(a, t.rows[row.id], row, u, oldKey, newKey);
  }

  lemma RowIsRotated(a: Aead, before: Row, row: PageRow, u: Update, oldKey: Key, newKey: Key)
    requires row == PageRowOf(row.id, before) && SealedAgain(a, row, u, oldKey, newKey)
    ensures Rotated(a, before, WithPayload(before, u.content, u.tag), oldKey, newKey)
  {
  }

  lemma WriteNext(a: Aead, t: Table, t1: Table, t2: Table, ns: string, after: string, page: seq<PageRow>, k: nat,
                  u: Update, oldKey: Key, newKey: Key)
    requires k < |page| && PageRows(t, ns, after, page) && SealedAgain(a, page[k], u, oldKey, newKey)
    requires Written(a, t, t1, PageIds(page)[..k], oldKey, newKey) && u.id in t1.rows
    requires t2 == t1.(rows := t1.rows[u.id := WithPayload(t1.rows[u.id], u.content, u.tag)])
    ensures Written(a, t, t2, PageIds(page)[..k + 1], oldKey, newKey)
  {
    PageIdsAreDistinct(t, ns, after, page);
    assert page[k] in page;
    var ids := PageIds(page);
    assert ids[..k + 1] == ids[..k] + [ids[k]] && ids[k] == page[k].id;
    assert forall i :: 0 <= i < k ==> ids[i] != ids[k];
    WriteRow(a, t, t1, t2, ids[..k], page[k], u, oldKey, newKey);
  }

  /** A row of a page cannot be sealed again only if it could not be before the sweep. */
  lemma UnrotatableFromTheStart(a: Aead, t0: Table, t: Table, ns: string, after: string, page: seq<PageRow>,
                                oldKey: Key, newKey: Key)
    requires Swept(a, t0, t, ns, after, oldKey, newKey)
    requires PageRows(t, ns, after, page) && Unrotatable(a, t, page, oldKey)
    ensures exists id :: id in t0.rows && InScope(t0.rows[id], ns) && !Rotatable(a, t0.rows[id], oldKey)
  {
    var k :| 0 <= k < |page| && page[k].id in t.rows && !Rotatable(a, t.rows[page[k].id], oldKey);
    assert page[k] in page;
    assert InScope(t0.rows[page[k].id], ns);
  }

  lemma RotatedWereRotatable(a: Aead, t0: Table, t: Table, ns: string, oldKey: Key, newKey: Key)
    requires AllRotated(a, t0, t, ns, oldKey, newKey)
    ensures forall id <- t0.rows :: InScope(t0.rows[id], ns) ==> Rotatable(a, t0.rows[id], oldKey)
  {
    forall id | id in t0.rows && InScope(t0.rows[id], ns)
      ensures Rotatable(a, t0.rows[id], oldKey)
    {
      RotatedWasRotatable(a, t0.rows[id], t.rows[id], oldKey, newKey);
    }
  }

  /** A row is bound to its path and opens with `key` to `plain`. */
  ghost predicate Bears(a: Aead, row: Row, key: Key, base: string, plain: seq<Byte>) {
    && row.entry.encoding == base + "-aes256gcm-bound"
    && DecryptBytes(a, row.entry.content, key, AssociatedData(row.entry.encoding, row.path)) == Ok(plain)
  }

  /** If a row was sealed without associated data, it opens without them. */
  ghost predicate LegacyOpens(a: Aead, row: Row, key: Key) {
    EndsWith(row.entry.encoding, "-aes256gcm") ==> DecryptBytes(a, row.entry.content, key, []).Ok?
  }

  lemma AllRotatedHold(a: Aead, t0: Table, t: Table, ns: string, oldKey: Key, newKey: Key)
    requires AllRotated(a, t0, t, ns, oldKey, newKey)
    ensures Opens(a) ==>
              forall id, base, plain ::
                && id in t0.rows && InScope(t0.rows[id], ns) && Holding(a, t0.rows[id], oldKey, base, plain) ==>
                  t.rows[id].path == t0.rows[id].path && Bears(a, t.rows[id], newKey, base, plain)
    ensures forall id <- t0.rows :: InScope(t0.rows[id], ns) ==> LegacyOpens(a, t0.rows[id], oldKey)
  {
    if Opens(a) {
      forall id, base, plain |
          id in t0.rows && InScope(t0.rows[id], ns) && Holding(a, t0.rows[id], oldKey, base, plain)
        ensures t.rows[id].path == t0.rows[id].path && Bears(a, t.rows[id], newKey, base, plain)
      {
        RotatedHolds(a, t0.rows[id], t.rows[id], oldKey, newKey, base, plain);
      }
    }
    forall id | id in t0.rows && InScope(t0.rows[id], ns)
      ensures LegacyOpens(a, t0.rows[id], oldKey)
    {
      if EndsWith(t0.rows[id].entry.encoding, "-aes256gcm") {
        RotatedLegacyOpened(a, t0.rows[id], t.rows[id], oldKey, newKey);
      }
    }
  }

  lemma AllRotatableIff(a: Aead, t: Table, ns: string, key: Key)
    ensures Opens(a) ==>
              ((forall id <- t.rows :: InScope(t.rows[id], ns) ==> Rotatable(a, t.rows[id], key)) <==>
               (forall id <- t.rows :: InScope(t.rows[id], ns) ==>
                  exists base, plain :: Holding(a, t.rows[id], key, base, plain)))
  {
    if Opens(a) {
      forall id | id in t.rows
        ensures Rotatable(a, t.rows[id], key) <==> exists base, plain :: Holding(a, t.rows[id], key, base, plain)
      {
        RotatableIff(a, t.rows[id], key);
      }
    }
  }

  /** The page goes on: its content is short of `maxBytes`. */
  ghost predicate Loading(t: Table, ns: string, after: string, maxRows: nat, maxBytes: nat, page: seq<PageRow>,
                          bytes: nat)
  {
    && PageRows(t, ns, after, page) && NoneMissed(t, ns, after, page)
    && |page| <= maxRows && bytes == ContentBytes(page) && (page != [] ==> bytes < maxBytes)
  }

  lemma LoadEnds(t: Table, ns: string, after: string, maxRows: nat, maxBytes: nat, page: seq<PageRow>, bytes: nat)
    requires Loading(t, ns, after, maxRows, maxBytes, page, bytes)
    requires |page| == maxRows || NothingAfter(t, ns, PageLast(after, page))
    ensures IsPage(t, ns, after, maxRows, maxBytes, page)
  {
    PageIsPrefix(page);
  }

  lemma LoadGrows(t: Table, ns: string, after: string, maxRows: nat, maxBytes: nat, page: seq<PageRow>, bytes: nat,
                  id: nat)
    requires Valid(t) && Loading(t, ns, after, maxRows, maxBytes, page, bytes) && |page| < maxRows
    requires Has(t, ns, id) && PathLess(PageLast(after, page), t.rows[id].path)
    requires forall x :: Has(t, ns, x) && PathLess(PageLast(after, page), t.rows[x].path) ==>
               x == id || !PathLess(t.rows[x].path, t.rows[id].path)
    ensures var row := PageRowOf(id, t.rows[id]);
            var more := bytes + |row.content|;
            if more < maxBytes then Loading(t, ns, after, maxRows, maxBytes, page + [row], more)
            else IsPage(t, ns, after, maxRows, maxBytes, page + [row])
  {
    PageGrows(t, ns, after, page, id);
    var row := PageRowOf(id, t.rows[id]);
    assert (page + [row])[..|page|] == page;
  }

  lemma WriteNextAs(t: Table, ns: string, t0: Table, after: string, page: seq<PageRow>, us: seq<Update>, k: nat)
    requires k < |page| == |us| && PageRows(t0, ns, after, page) && WrittenAs(t, page[..k], us[..k])
    requires us[k].id == page[k].id && us[k].id in t.rows
    ensures WrittenAs(t.(rows := t.rows[us[k].id := WithPayload(t.rows[us[k].id], us[k].content, us[k].tag)]),
                      page[..k + 1], us[..k + 1])
  {
    PageIdsAreDistinct(t0, ns, after, page);
    assert forall i :: 0 <= i <= k ==> PageIds(page)[i] == page[i].id;
  }

  class KeyedEngine {
    const store: Store
    const namespace: string
    const readOnly: bool
    const aead: Aead
    var key: Option<Key>

    constructor (store: Store, namespace: string, readOnly: bool, aead: Aead, key: Option<Key>)
      ensures this.store == store && this.namespace == namespace && this.readOnly == readOnly
      ensures this.aead == aead && this.key == key
    {
      this.store, this.namespace, this.readOnly, this.aead, this.key := store, namespace, readOnly, aead, key;
    }

    /** The next row of the namespace in path order. */
    method NextByPath(after: string) returns (next: Option<nat>)
      ensures next.None? ==> NothingAfter(store.table, namespace, after)
      ensures next.Some? ==>
                && Has(store.table, namespace, next.value) && PathLess(after, store.table.rows[next.value].path)
                && (forall id :: Has(store.table, namespace, id) && PathLess(after, store.table.rows[id].path) ==>
                      id == next.value || !PathLess(store.table.rows[id].path, store.table.rows[next.value].path))
    {
      var left := store.Ids(namespace);
      next := None;
      while left != {}
        invariant forall id <- left :: Has(store.table, namespace, id)
        invariant next.Some? ==>
                    Has(store.table, namespace, next.value) && PathLess(after, store.table.rows[next.value].path)
        invariant forall id ::
                    Has(store.table, namespace, id) && PathLess(after, store.table.rows[id].path) && id !in left ==>
                    next.Some? && !PathLess(store.table.rows[id].path, store.table.rows[next.value].path)
        decreases left
      {
        var id :| id in left;
        left := left - {id};
        var path := store.table.rows[id].path;
        PathLessIsStrict(path, path);
        if PathLess(after, path) && (next.None? || PathLess(path, store.table.rows[next.value].path)) {
          NewLeast(store.table, namespace, after, left, next, id);
          next := Some(id);
        }
      }
    }

    /** `load_payload_page`. */
    method LoadPayloadPage(after: string, maxRows: nat, maxBytes: nat) returns (page: seq<PageRow>)
      requires Valid(store.table)
      ensures IsPage(store.table, namespace, after, maxRows, maxBytes, page)
    {
      page := [];
      var bytes: nat := 0;
      while |page| < maxRows
        invariant Loading(store.table, namespace, after, maxRows, maxBytes, page, bytes)
      {
        var next := NextByPath(PageLast(after, page));
        if next.None? {
          LoadEnds(store.table, namespace, after, maxRows, maxBytes, page, bytes);
          return;
        }
        LoadGrows(store.table, namespace, after, maxRows, maxBytes, page, bytes, next.value);
        var row := PageRowOf(next.value, store.table.rows[next.value]);
        bytes := bytes + |row.content|;
        page := page + [row];
        if bytes >= maxBytes {
          return;
        }
      }
      LoadEnds(store.table, namespace, after, maxRows, maxBytes, page, bytes);
    }

    /** Seal every row of a page again. */
    method ResealPage(page: seq<PageRow>, newKey: Key, nonces: Nonces, drawn: nat)
      returns (r: Result<seq<Update>, FormatError>)
      requires key.Some?
      ensures r.Ok? ==> AllSealedAgain(aead, page, r.value, key.value, newKey)
      ensures r.Ok? ==> EachWithItsNonce(aead, page, r.value, key.value, newKey, nonces, drawn)
      ensures r.Err? ==>
                exists k: nat :: k < |page|
                  && Reseal(aead, page[k].content, page[k].tag, page[k].path, key.value, newKey, nonces(drawn + k))
                       == Err(r.error)
    {
      var updates: seq<Update>, i := [], 0;
      while i < |page|
        invariant i <= |page| && EachWithItsNonce(aead, page[..i], updates, key.value, newKey, nonces, drawn)
      {
        var row := page[i];
        var nonce := nonces(drawn + i);
        var resealed := Reseal(aead, row.content, row.tag, row.path, key.value, newKey, nonce);
        if resealed.Err? {
          return Err(resealed.error);
        }
        updates := updates + [Update(row.id, resealed.value.content, resealed.value.tag)];
        assert page[..i + 1] == page[..i] + [row];
        i := i + 1;
      }
      assert page[..i] == page;
      EachIsSealedAgain(aead, page, updates, key.value, newKey, nonces, drawn);
      return Ok(updates);
    }

    /** `UPDATE payloads SET content = ?, encoding = ? WHERE file_id = ?`. */
    method UpdatePayloadContent(u: Update)
      modifies store
      ensures store.table == if u.id in old(store.table).rows
                             then old(store.table).(rows := old(store.table).rows[
                                    u.id := WithPayload(old(store.table).rows[u.id], u.content, u.tag)])
                             else old(store.table)
    {
      if u.id in store.table.rows {
        store.table :=
          store.table.(rows := store.table.rows[u.id := WithPayload(store.table.rows[u.id], u.content, u.tag)]);
      }
    }

    /** Write the updates of a page. */
    method WritePage(ghost after: string, page: seq<PageRow>, updates: seq<Update>, ghost newKey: Key)
      requires key.Some? && PageRows(store.table, namespace, after, page)
      requires AllSealedAgain(aead, page, updates, key.value, newKey)
      modifies store
      ensures Written(aead, old(store.table), store.table, PageIds(page), key.value, newKey)
      ensures WrittenAs(store.table, page, updates)
    {
      ghost var before := store.table;
      var i := 0;
      while i < |updates|
        invariant i <= |page| && key == old(key)
        invariant Written(aead, before, store.table, PageIds(page)[..i], key.value, newKey)
        invariant WrittenAs(store.table, page[..i], updates[..i])
      {
        assert page[i] in page;
        WriteNext(aead, before, store.table,
                  store.table.(rows := store.table.rows[
                    updates[i].id := WithPayload(store.table.rows[updates[i].id], updates[i].content, updates[i].tag)]),
                  namespace, after, page, i, updates[i], key.value, newKey);
        WriteNextAs(store.table, namespace, before, after, page, updates, i);
        UpdatePayloadContent(updates[i]);
        i := i + 1;
      }
      assert PageIds(page)[..i] == PageIds(page) && page[..i] == page && updates[..i] == updates;
    }

    /**
      `rotate_encryption_key`. `Ok` means every row in scope is sealed again, once, under the new key, no other row is
      touched, and the engine has the new key; `Err` means nothing changed, the key included.
     */
    method RotateEncryptionKey(newKey: seq<Byte>, nonces: Nonces, maxRows: nat, maxBytes: nat)
      returns (r: Result<nat, RotationError>)
      requires Valid(store.table) && maxRows >= 1
      modifies this, store
      ensures r.Ok? ==>
                && !readOnly && old(key).Some? && |newKey| == KEY_LENGTH && key == Some(newKey)
                && AllRotated(aead, old(store.table), store.table, namespace, old(key).value, newKey)
                && r.value == |Scope(old(store.table), namespace)|
      ensures r.Ok? ==>
                (r.value == |IdsOf(old(store.table), namespace)| <==>
                   forall id :: Has(old(store.table), namespace, id) ==> old(store.table).rows[id].path != "")
      ensures r.Ok? && Opens(aead) ==>
                forall id, base, plain ::
                  && id in old(store.table).rows && InScope(old(store.table).rows[id], namespace)
                  && Holding(aead, old(store.table).rows[id], old(key).value, base, plain) ==>
                    && store.table.rows[id].path == old(store.table).rows[id].path
                    && Bears(aead, store.table.rows[id], newKey, base, plain)
      ensures r.Ok? ==>
                forall id <- old(store.table).rows ::
                  InScope(old(store.table).rows[id], namespace) ==>
                    LegacyOpens(aead, old(store.table).rows[id], old(key).value)
      ensures r.Ok? ==>
                exists draws: map<nat, nat> ::
                  && draws.Keys == Scope(old(store.table), namespace)
                  && OwnDraws(aead, old(store.table), store.table, nonces, draws, r.value, old(key).value, newKey)
      ensures r.Err? ==> store.table == old(store.table) && key == old(key)
      ensures readOnly ==> r == Err(ReadOnly)
      ensures !readOnly && key.None? ==> r == Err(MissingKey)
      ensures !readOnly && old(key).Some? && |newKey| != KEY_LENGTH ==> r == Err(InvalidNewKey(|newKey|))
      ensures !readOnly && old(key).Some? && |newKey| == KEY_LENGTH && NeverFails(nonces) ==>
                (r.Ok? <==> forall id <- old(store.table).rows ::
                              InScope(old(store.table).rows[id], namespace) ==>
                                Rotatable(aead, old(store.table).rows[id], old(key).value))
      ensures !readOnly && old(key).Some? && |newKey| == KEY_LENGTH && NeverFails(nonces) && Opens(aead) ==>
                (r.Ok? <==> forall id <- old(store.table).rows ::
                              InScope(old(store.table).rows[id], namespace) ==>
                                exists base, plain ::
                                  Holding(aead, old(store.table).rows[id], old(key).value, base, plain))
    {
      if readOnly {
        return Err(ReadOnly);
      }
      if key.None? {
        return Err(MissingKey);
      }
      if |newKey| != KEY_LENGTH {
        return Err(InvalidNewKey(|newKey|));
      }
      var snapshot := store.table;
      AllRotatableIff(aead, snapshot, namespace, key.value);
      var after, total := "", 0;
      ghost var draws: map<nat, nat> := map[];
      SweepStarts(aead, snapshot, namespace, key.value, newKey);
      while true
        invariant key == old(key) && Valid(store.table)
        invariant Swept(aead, snapshot, store.table, namespace, after, key.value, newKey)
        invariant total == |Done(snapshot, namespace, after)| && draws.Keys == Done(snapshot, namespace, after)
        invariant OwnDraws(aead, snapshot, store.table, nonces, draws, total, key.value, newKey)
        decreases Scope(snapshot, namespace) - Done(snapshot, namespace, after)
      {
        var page := LoadPayloadPage(after, maxRows, maxBytes);
        if page == [] {
          break;
        }
        var updates := ResealPage(page, newKey, nonces, total);
        if updates.Err? {
          FailureIsUnrotatable(aead, snapshot, store.table, namespace, after, page, key.value, newKey, nonces, total,
                               updates.error);
          store.table := snapshot;
          return Err(Failed(updates.error));
        }
        ghost var before := store.table;
        WritePage(after, page, updates.value, newKey);
        SweepPage(aead, snapshot, before, store.table, namespace, after, page, key.value, newKey);
        WrittenIsValid(aead, before, store.table, namespace, after, page, key.value, newKey);
        PageHasOwnDraws(aead, snapshot, before, store.table, namespace, after, page, updates.value, nonces, draws,
                        total, key.value, newKey);
        draws := draws + PageDraws(page, total);
        total := total + |updates.value|;
        after := PageLast(after, page);
      }
      SweepEnds(aead, snapshot, store.table, namespace, after, key.value, newKey);
      RotatedWereRotatable(aead, snapshot, store.table, namespace, key.value, newKey);
      ScopeCountIff(snapshot, namespace);
      AllRotatedHold(aead, snapshot, store.table, namespace, key.value, newKey);
      key := Some(newKey);
      return Ok(total);
    }
  }

  /** With nonces to draw, a page that cannot be sealed again has a row that never could. */
  lemma FailureIsUnrotatable(a: Aead, t0: Table, t: Table, ns: string, after: string, page: seq<PageRow>, oldKey: Key,
                             newKey: Key, nonces: Nonces, drawn: nat, error: FormatError)
    requires Swept(a, t0, t, ns, after, oldKey, newKey) && PageRows(t, ns, after, page)
    requires exists k: nat :: k < |page|
               && Reseal(a, page[k].content, page[k].tag, page[k].path, oldKey, newKey, nonces(drawn + k)) == Err(error)
    ensures NeverFails(nonces) ==>
              exists id :: id in t0.rows && InScope(t0.rows[id], ns) && !Rotatable(a, t0.rows[id], oldKey)
  {
    var k: nat :| k < |page|
      && Reseal(a, page[k].content, page[k].tag, page[k].path, oldKey, newKey, nonces(drawn + k)) == Err(error);
    ResealsIff(a, page[k].content, page[k].tag, page[k].path, oldKey, newKey, nonces(drawn + k));
    assert page[k] in page;
    if NeverFails(nonces) {
      assert Unrotatable(a, t, page, oldKey);
      UnrotatableFromTheStart(a, t0, t, ns, after, page, oldKey, newKey);
    }
  }

  lemma WrittenIsValid(a: Aead, t: Table, t': Table, ns: string, after: string, page: seq<PageRow>, oldKey: Key,
                       newKey: Key)
    requires Valid(t) && PageRows(t, ns, after, page) && Written(a, t, t', PageIds(page), oldKey, newKey)
    ensures Valid(t')
  {
    forall id | id in t.rows
      ensures t'.rows[id].lastUsed == t.rows[id].lastUsed
      ensures t'.rows[id].namespace == t.rows[id].namespace && t'.rows[id].path == t.rows[id].path
    {
      if id in PageIds(page) {
        var k :| 0 <= k < |page| && PageIds(page)[k] == id;
        assert page[k] in page;
      }
    }
  }

  lemma NewLeast(t: Table, ns: string, after: string, left: set<nat>, least: Option<nat>, id: nat)
    requires Has(t, ns, id)
    requires least.Some? ==> Has(t, ns, least.value) && PathLess(t.rows[id].path, t.rows[least.value].path)
    requires forall x :: Has(t, ns, x) && PathLess(after, t.rows[x].path) && x !in left && x != id ==>
               least.Some? && !PathLess(t.rows[x].path, t.rows[least.value].path)
    ensures forall x :: Has(t, ns, x) && PathLess(after, t.rows[x].path) && x !in left ==>
              !PathLess(t.rows[x].path, t.rows[id].path)
  {
    forall x | Has(t, ns, x) && PathLess(after, t.rows[x].path) && x !in left
      ensures !PathLess(t.rows[x].path, t.rows[id].path)
    {
      PathLessIsStrict(t.rows[id].path, t.rows[id].path);
      if x != id && PathLess(t.rows[x].path, t.rows[id].path) {
        PathLessChains(t.rows[x].path, t.rows[id].path, t.rows[least.value].path);
      }
    }
  }

  lemma PageIsPrefix(page: seq<PageRow>)
    ensures page != [] ==> ContentBytes(page[..|page| - 1]) <= ContentBytes(page)
  {
  }

  /** A page goes on with the next row. */
  lemma PageGrows(t: Table, ns: string, after: string, page: seq<PageRow>, id: nat)
    requires Valid(t) && PageRows(t, ns, after, page) && NoneMissed(t, ns, after, page)
    requires Has(t, ns, id) && PathLess(PageLast(after, page), t.rows[id].path)
    requires forall x :: Has(t, ns, x) && PathLess(PageLast(after, page), t.rows[x].path) ==>
               x == id || !PathLess(t.rows[x].path, t.rows[id].path)
    ensures var page' := page + [PageRowOf(id, t.rows[id])];
            PageRows(t, ns, after, page') && NoneMissed(t, ns, after, page')
  {
    var page' := page + [PageRowOf(id, t.rows[id])];
    var path := t.rows[id].path;
    forall i | 0 <= i < |page|
      ensures PathLess(page[i].path, path) && PathLess(after, path)
    {
      assert page[i] in page;
      if i < |page| - 1 {
        PathLessChains(page[i].path, PageLast(after, page), path);
      }
      PathLessChains(after, page[i].path, path);
    }
    forall x | Has(t, ns, x) && PathLess(after, t.rows[x].path) && x !in PageIds(page')
      ensures PathLess(path, t.rows[x].path)
    {
      assert PageIds(page') == PageIds(page) + [id];
      PathLessIsStrict(t.rows[x].path, path);
    }
  }
}
