/** One row sealed again, and how far a sweep of a namespace has come. */
module RotationSteps {
  import opened Wrappers
  import opened Bytes
  import opened UseTable
  import opened UseImport
  import opened UseStatements
  import opened SealTags
  import opened Sealing
  import opened Decompression
  import opened PayloadPipeline

  // ---------------------------------------------------------------------------
  // The order of paths
  // ---------------------------------------------------------------------------

  /** The order of SQLite's `path` column: UTF-8 bytes, which is scalar by scalar. */
  predicate PathLess(a: string, b: string) {
    b != [] && (a == [] || a[0] < b[0] || (a[0] == b[0] && PathLess(a[1..], b[1..])))
  }

  lemma {:induction false} PathLessIsStrict(a: string, b: string)
    ensures !(PathLess(a, b) && PathLess(b, a))
    ensures PathLess(a, b) || PathLess(b, a) <==> a != b
  {
    if a != [] && b != [] && a[0] == b[0] {
      PathLessIsStrict(a[1..], b[1..]);
      assert a == [a[0]] + a[1..] && b == [b[0]] + b[1..];
    }
  }

  lemma {:induction false} PathLessChains(a: string, b: string, c: string)
    requires PathLess(a, b) && PathLess(b, c)
    ensures PathLess(a, c)
  {
    if a != [] && a[0] == b[0] == c[0] {
      PathLessChains(a[1..], b[1..], c[1..]);
    }
  }

  // ---------------------------------------------------------------------------
  // One row
  // ---------------------------------------------------------------------------

  /** A row whose payload is replaced and nothing else. */
  function WithPayload(row: Row, content: seq<Byte>, tag: string): Row {
    row.(entry := row.entry.(content := content, encoding := tag))
  }

  /** `after` is `before` with its payload sealed again, once, under the new key. */
  ghost predicate Rotated(a: Aead, before: Row, after: Row, oldKey: Key, newKey: Key) {
    && after == WithPayload(before, after.entry.content, after.entry.encoding)
    && exists nonce: Nonce ::
         Reseal(a, before.entry.content, before.entry.encoding, before.path, oldKey, newKey, Some(nonce))
           == Ok(Resealed(after.entry.content, after.entry.encoding))
  }

  /** Whether a row can be sealed again: its tag is known, and it opens with the old key if it is sealed. */
  predicate Rotatable(a: Aead, row: Row, oldKey: Key) {
    && IsKnownBase(ParseTag(row.entry.encoding).0)
    && InnerOf(a, row.entry.content, row.entry.encoding, row.path, oldKey).Ok?
  }

  /** A rotated row was rotatable, and opens under the new key at its own path to what it held, with the same base. */
  lemma RotatedOpens(a: Aead, before: Row, after: Row, oldKey: Key, newKey: Key)
    requires Opens(a) && Rotated(a, before, after, oldKey, newKey)
    ensures Rotatable(a, before, oldKey)
    ensures ParseTag(after.entry.encoding) == (ParseTag(before.entry.encoding).0, Bound)
    ensures InnerOf(a, after.entry.content, after.entry.encoding, after.path, newKey)
         == InnerOf(a, before.entry.content, before.entry.encoding, before.path, oldKey)
  {
    var e := before.entry;
    var nonce: Nonce :| Reseal(a, e.content, e.encoding, before.path, oldKey, newKey, Some(nonce))
                          == Ok(Resealed(after.entry.content, after.entry.encoding));
    ResealsIff(a, e.content, e.encoding, before.path, oldKey, newKey, Some(nonce));
    ResealKeepsInner(a, e.content, e.encoding, before.path, oldKey, newKey, Some(nonce));
  }

  // ---------------------------------------------------------------------------
  // What a row holds, said of its content and tag
  // ---------------------------------------------------------------------------

  /** `text` behind some nonce is what sealing `plain` with `aad` gives. */
  ghost predicate IsSealOf(a: Aead, content: seq<Byte>, key: Key, aad: seq<Byte>, plain: seq<Byte>) {
    exists nonce: Nonce :: content == nonce + a.seal(key, nonce, aad, plain)
  }

  /**
    A row holds `plain` in the encoding `base`: plainly, or sealed with no associated data, as up to version 0.23, or
    sealed with its own tag and path.
   */
  ghost predicate Holding(a: Aead, row: Row, key: Key, base: string, plain: seq<Byte>) {
    var e := row.entry;
    && IsKnownBase(base)
    && (|| (e.encoding == base && e.content == plain)
        || (e.encoding == base + "-aes256gcm" && IsSealOf(a, e.content, key, [], plain))
        || (e.encoding == base + "-aes256gcm-bound"
            && IsSealOf(a, e.content, key, AssociatedData(e.encoding, row.path), plain)))
  }

  lemma IsSealOfIff(a: Aead, content: seq<Byte>, key: Key, aad: seq<Byte>, plain: seq<Byte>)
    requires Opens(a)
    ensures IsSealOf(a, content, key, aad, plain) <==> DecryptBytes(a, content, key, aad) == Ok(plain)
  {
    DecryptsIff(a, content, key, aad, plain);
    if IsSealOf(a, content, key, aad, plain) {
      var nonce: Nonce :| content == nonce + a.seal(key, nonce, aad, plain);
      NonceInFront(nonce, a.seal(key, nonce, aad, plain));
    }
    if DecryptBytes(a, content, key, aad) == Ok(plain) {
      var nonce: Nonce := content[..NONCE_LENGTH];
      assert content == nonce + a.seal(key, nonce, aad, plain);
    }
  }

  /** A row holds what is inside it, and nothing else. */
  lemma HoldingIff(a: Aead, row: Row, key: Key, base: string, plain: seq<Byte>)
    requires Opens(a)
    ensures Holding(a, row, key, base, plain)
       <==> IsKnownBase(base) && ParseTag(row.entry.encoding).0 == base
            && InnerOf(a, row.entry.content, row.entry.encoding, row.path, key) == Ok(plain)
  {
    var e := row.entry;
    IsSealOfIff(a, e.content, key, [], plain);
    IsSealOfIff(a, e.content, key, AssociatedData(e.encoding, row.path), plain);
    ParseTagIff(e.encoding, base, Plain);
    ParseTagIff(e.encoding, base, Unbound);
    ParseTagIff(e.encoding, base, Bound);
    assert base + "" == base;
    if IsKnownBase(base) {
      KnownBaseIsPlain(base);
    }
  }

  /** A row can be sealed again exactly when it holds something in a known encoding. */
  lemma RotatableIff(a: Aead, row: Row, key: Key)
    requires Opens(a)
    ensures Rotatable(a, row, key) <==> exists base, plain :: Holding(a, row, key, base, plain)
  {
    if Rotatable(a, row, key) {
      var base := ParseTag(row.entry.encoding).0;
      HoldingIff(a, row, key, base, InnerOf(a, row.entry.content, row.entry.encoding, row.path, key).value);
    }
    forall base, plain | Holding(a, row, key, base, plain)
      ensures Rotatable(a, row, key)
    {
      HoldingIff(a, row, key, base, plain);
    }
  }

  /** A row sealed again is bound to its own path and opens with the new key to what it held, whatever its seal was. */
  lemma RotatedHolds(a: Aead, before: Row, after: Row, oldKey: Key, newKey: Key, base: string, plain: seq<Byte>)
    requires Opens(a) && Rotated(a, before, after, oldKey, newKey) && Holding(a, before, oldKey, base, plain)
    ensures after == before.(entry := before.entry.(content := after.entry.content, encoding := after.entry.encoding))
    ensures after.entry.encoding == base + "-aes256gcm-bound"
    ensures DecryptBytes(a, after.entry.content, newKey, AssociatedData(after.entry.encoding, after.path)) == Ok(plain)
  {
    HoldingIff(a, before, oldKey, base, plain);
    RotatedOpens(a, before, after, oldKey, newKey);
    ParseTagIff(after.entry.encoding, base, Bound);
  }

  /** What was sealed without associated data is sealed again only if it opens without them. */
  lemma RotatedLegacyOpened(a: Aead, before: Row, after: Row, oldKey: Key, newKey: Key)
    requires Rotated(a, before, after, oldKey, newKey) && EndsWith(before.entry.encoding, "-aes256gcm")
    ensures DecryptBytes(a, before.entry.content, oldKey, []).Ok?
  {
    RotatedWasRotatable(a, before, after, oldKey, newKey);
    EndsWithLast(before.entry.encoding, LEGACY_SUFFIX);
    EndsWithLast(before.entry.encoding, BOUND_SUFFIX);
    assert LEGACY_SUFFIX[|LEGACY_SUFFIX| - 1] == 'm' && BOUND_SUFFIX[|BOUND_SUFFIX| - 1] == 'd';
  }

  /** The content of a payload is a nonce and a text that also opens elsewhere. */
  ghost predicate Forged(a: Aead, content: seq<Byte>, key: Key, tag: string, path: string, key': Key, tag': string,
                         path': string)
  {
    exists nonce: Nonce, text ::
      && content == nonce + text
      && Forgery(a, nonce, text, key, AssociatedData(tag, path), key', AssociatedData(tag', path'))
  }

  /** It opens under no other key, at no other path and under no other bound tag, unless it is forged. */
  lemma RotatedOpensNowhereElse(a: Aead, before: Row, after: Row, oldKey: Key, newKey: Key, key: Key, tag: string,
                                path: string)
    requires Opens(a) && Rotated(a, before, after, oldKey, newKey) && IsBoundTag(tag)
    ensures var e := after.entry;
            || (key == newKey && tag == e.encoding && path == before.path)
            || InnerOf(a, e.content, tag, path, key) == Err(EncryptionError)
            || Forged(a, e.content, newKey, e.encoding, before.path, key, tag, path)
  {
    var e := before.entry;
    var nonce: Nonce :| Reseal(a, e.content, e.encoding, before.path, oldKey, newKey, Some(nonce))
                          == Ok(Resealed(after.entry.content, after.entry.encoding));
    ResealedOpensNowhereElse(a, e.content, e.encoding, before.path, oldKey, newKey, nonce, key, tag, path);
    assert after.entry.content == nonce + ResealedText(a, e.content, e.encoding, before.path, oldKey, newKey, nonce);
  }

  /** So the engine reads a rotated payload with a key only with the new one, at its own path, under its own tag. */
  lemma RotatedIsReadOnlyAtHome(lib: Libraries, t: Type, before: Row, after: Row, oldKey: Key, newKey: Key, key: Key,
                                tag: string, path: string, limit: nat)
    requires Opens(lib.aead) && Rotated(lib.aead, before, after, oldKey, newKey)
    requires Decode(lib, t, after.entry.content, tag, path, limit, Some(key)).Ok?
    ensures || (key == newKey && tag == after.entry.encoding && path == before.path)
            || Forged(lib.aead, after.entry.content, newKey, after.entry.encoding, before.path, key, tag, path)
  {
    ReadableTagIsKnown(lib, t, after.entry.content, tag, path, limit, key);
    RotatedOpensNowhereElse(lib.aead, before, after, oldKey, newKey, key, tag, path);
  }

  // ---------------------------------------------------------------------------
  // One page
  // ---------------------------------------------------------------------------

  datatype PageRow = PageRow(id: nat, path: string, tag: string, content: seq<Byte>)

  function PageRowOf(id: nat, row: Row): PageRow {
    PageRow(id, row.path, row.entry.encoding, row.entry.content)
  }

  function PageIds(page: seq<PageRow>): (ids: seq<nat>) {
    seq(|page|, i requires 0 <= i < |page| => page[i].id)
  }

  function ContentBytes(page: seq<PageRow>): (n: nat) {
    if page == [] then 0 else ContentBytes(page[..|page| - 1]) + |page[|page| - 1].content|
  }

  /** The rows of a page are rows of the namespace after the cursor, in path order. */
  ghost predicate PageRows(t: Table, ns: string, after: string, page: seq<PageRow>) {
    && (forall row <- page ::
          Has(t, ns, row.id) && row == PageRowOf(row.id, t.rows[row.id]) && PathLess(after, row.path))
    && (forall i, j :: 0 <= i < j < |page| ==> PathLess(page[i].path, page[j].path))
  }

  /** Where a page ends: at its last row, or at the cursor if it has none. */
  function PageLast(after: string, page: seq<PageRow>): (path: string) {
    if page == [] then after else page[|page| - 1].path
  }

  /** No row between the cursor and the end of the page is missing. */
  ghost predicate NoneMissed(t: Table, ns: string, after: string, page: seq<PageRow>) {
    forall id :: Has(t, ns, id) && PathLess(after, t.rows[id].path) && id !in PageIds(page) ==>
      PathLess(PageLast(after, page), t.rows[id].path)
  }

  /** No row of the namespace comes after `path`. */
  ghost predicate NothingAfter(t: Table, ns: string, path: string) {
    forall id :: Has(t, ns, id) ==> !PathLess(path, t.rows[id].path)
  }

  /** A page ends after `maxRows` rows, with the row that brings its content to `maxBytes`, or with the namespace. */
  ghost predicate IsPage(t: Table, ns: string, after: string, maxRows: nat, maxBytes: nat, page: seq<PageRow>) {
    && PageRows(t, ns, after, page) && NoneMissed(t, ns, after, page)
    && |page| <= maxRows && (|page| > 1 ==> ContentBytes(page[..|page| - 1]) < maxBytes)
    && (|page| == maxRows || ContentBytes(page) >= maxBytes || NothingAfter(t, ns, PageLast(after, page)))
    && (page == [] && maxRows >= 1 ==> NothingAfter(t, ns, after))
  }

  // ---------------------------------------------------------------------------
  // The sweep
  // ---------------------------------------------------------------------------

  /** The rows a sweep reaches: those of the namespace, but for one with an empty path, if there is one. */
  predicate InScope(row: Row, ns: string) {
    row.namespace == ns && row.path != ""
  }

  ghost predicate Reached(row: Row, ns: string, after: string) {
    InScope(row, ns) && !PathLess(after, row.path)
  }

  /** Up to and including the cursor every row in scope is rotated, and no other row is touched. */
  ghost predicate Swept(a: Aead, t0: Table, t: Table, ns: string, after: string, oldKey: Key, newKey: Key) {
    && t.nextId == t0.nextId && t.rows.Keys == t0.rows.Keys
    && (forall id <- t0.rows ::
          if Reached(t0.rows[id], ns, after) then Rotated(a, t0.rows[id], t.rows[id], oldKey, newKey)
          else t.rows[id] == t0.rows[id])
  }

  /** The rows in scope up to and including the cursor. */
  ghost function Done(t: Table, ns: string, after: string): (ids: set<nat>) {
    set id <- t.rows.Keys | Reached(t.rows[id], ns, after)
  }

  ghost function Scope(t: Table, ns: string): (ids: set<nat>) {
    set id <- t.rows.Keys | InScope(t.rows[id], ns)
  }

  lemma SweepStarts(a: Aead, t: Table, ns: string, oldKey: Key, newKey: Key)
    ensures Swept(a, t, t, ns, "", oldKey, newKey) && Done(t, ns, "") == {}
  {
  }

  /** The rows `ids` are sealed again and written, and nothing else. */
  ghost predicate Written(a: Aead, t: Table, t': Table, ids: seq<nat>, oldKey: Key, newKey: Key) {
    && t'.nextId == t.nextId && t'.rows.Keys == t.rows.Keys
    && (forall id <- ids :: id in t.rows && Rotated(a, t.rows[id], t'.rows[id], oldKey, newKey))
    && (forall id <- t.rows :: id !in ids ==> t'.rows[id] == t.rows[id])
  }

  /** A row at or before the cursor is before the end of the page, and one after the page is after the cursor. */
  lemma PageMovesCursor(page: seq<PageRow>, after: string, path: string)
    requires page != [] && PathLess(after, PageLast(after, page))
    ensures PathLess(PageLast(after, page), path) ==> PathLess(after, path)
  {
    if PathLess(PageLast(after, page), path) {
      PathLessChains(after, PageLast(after, page), path);
    }
  }

  lemma PageRowIsNotPast(t: Table, ns: string, after: string, page: seq<PageRow>, id: nat)
    requires PageRows(t, ns, after, page) && id in PageIds(page)
    ensures Has(t, ns, id) && PathLess(after, t.rows[id].path) && !PathLess(PageLast(after, page), t.rows[id].path)
  {
    var k :| 0 <= k < |page| && PageIds(page)[k] == id;
    assert page[k] in page;
    PathLessIsStrict(page[k].path, PageLast(after, page));
  }

  /** One row of the sweep, over one page. */
  lemma SweepRow(a: Aead, t0: Table, t: Table, t': Table, ns: string, after: string, page: seq<PageRow>, oldKey: Key,
                 newKey: Key, id: nat)
    requires Swept(a, t0, t, ns, after, oldKey, newKey) && id in t0.rows && page != []
    requires PageRows(t, ns, after, page) && NoneMissed(t, ns, after, page)
    requires Written(a, t, t', PageIds(page), oldKey, newKey)
    ensures if Reached(t0.rows[id], ns, PageLast(after, page))
            then Rotated(a, t0.rows[id], t'.rows[id], oldKey, newKey)
            else t'.rows[id] == t0.rows[id]
    ensures Reached(t0.rows[id], ns, PageLast(after, page)) <==> Reached(t0.rows[id], ns, after) || id in PageIds(page)
    ensures id in PageIds(page) ==> !Reached(t0.rows[id], ns, after)
  {
    var path := t0.rows[id].path;
    assert t.rows[id].path == path && t.rows[id].namespace == t0.rows[id].namespace;
    assert page[|page| - 1] in page;
    PageMovesCursor(page, after, path);
    if id in PageIds(page) {
      PageRowIsNotPast(t, ns, after, page, id);
      var k :| 0 <= k < |page| && PageIds(page)[k] == id;
      assert page[k] in page;
    } else if InScope(t0.rows[id], ns) && PathLess(after, path) {
      assert Has(t, ns, id);
    }
  }

  /** A page moves the sweep to its end. */
  lemma SweepPage(a: Aead, t0: Table, t: Table, t': Table, ns: string, after: string, page: seq<PageRow>, oldKey: Key,
                  newKey: Key)
    requires Swept(a, t0, t, ns, after, oldKey, newKey) && page != []
    requires PageRows(t, ns, after, page) && NoneMissed(t, ns, after, page)
    requires Written(a, t, t', PageIds(page), oldKey, newKey)
    ensures Swept(a, t0, t', ns, PageLast(after, page), oldKey, newKey)
    ensures |Done(t0, ns, PageLast(after, page))| == |Done(t0, ns, after)| + |page|
    ensures Done(t0, ns, after) < Done(t0, ns, PageLast(after, page))
  {
    forall id | id in t0.rows
      ensures if Reached(t0.rows[id], ns, PageLast(after, page))
              then Rotated(a, t0.rows[id], t'.rows[id], oldKey, newKey)
              else t'.rows[id] == t0.rows[id]
      ensures Reached(t0.rows[id], ns, PageLast(after, page))
         <==> Reached(t0.rows[id], ns, after) || id in PageIds(page)
      ensures id in PageIds(page) ==> !Reached(t0.rows[id], ns, after)
    {
      SweepRow(a, t0, t, t', ns, after, page, oldKey, newKey, id);
    }
    PageIdsAreDistinct(t, ns, after, page);
    forall id | id in PageIds(page)
      ensures id in t0.rows
    {
      PageRowIsNotPast(t, ns, after, page, id);
    }
    DoneGrows(t0, ns, after, PageLast(after, page), PageIds(page));
  }

  lemma DoneGrows(t: Table, ns: string, from: string, to: string, ids: seq<nat>)
    requires ids != [] && forall i, j :: 0 <= i < j < |ids| ==> ids[i] != ids[j]
    requires forall id <- ids :: id in t.rows && !Reached(t.rows[id], ns, from)
    requires forall id <- t.rows :: Reached(t.rows[id], ns, to) <==> Reached(t.rows[id], ns, from) || id in ids
    ensures |Done(t, ns, to)| == |Done(t, ns, from)| + |ids| && Done(t, ns, from) < Done(t, ns, to)
  {
    var s := set id <- ids;
    SizeOf(ids, s);
    assert Done(t, ns, to) == Done(t, ns, from) + s;
    assert ids[0] in s;
  }

  lemma PageIdsAreDistinct(t: Table, ns: string, after: string, page: seq<PageRow>)
    requires PageRows(t, ns, after, page)
    ensures forall i, j :: 0 <= i < j < |page| ==> PageIds(page)[i] != PageIds(page)[j]
  {
    forall i, j | 0 <= i < j < |page|
      ensures page[i].id != page[j].id
    {
      assert page[i] in page && page[j] in page;
      PathLessIsStrict(page[i].path, page[j].path);
    }
  }

  // ---------------------------------------------------------------------------
  // The whole sweep
  // ---------------------------------------------------------------------------

  /** Every row in scope is sealed again, once, and no other row is touched. */
  ghost predicate AllRotated(a: Aead, t0: Table, t: Table, ns: string, oldKey: Key, newKey: Key) {
    && t.nextId == t0.nextId && t.rows.Keys == t0.rows.Keys
    && (forall id <- t0.rows ::
          if InScope(t0.rows[id], ns) then Rotated(a, t0.rows[id], t.rows[id], oldKey, newKey)
          else t.rows[id] == t0.rows[id])
  }

  lemma SweepEnds(a: Aead, t0: Table, t: Table, ns: string, after: string, oldKey: Key, newKey: Key)
    requires Swept(a, t0, t, ns, after, oldKey, newKey) && NothingAfter(t, ns, after)
    ensures AllRotated(a, t0, t, ns, oldKey, newKey) && Done(t0, ns, after) == Scope(t0, ns)
  {
    forall id | id in t0.rows && InScope(t0.rows[id], ns)
      ensures Reached(t0.rows[id], ns, after)
    {
      assert t.rows[id].path == t0.rows[id].path && Has(t, ns, id);
    }
  }

  /** There are as many rows in scope as rows of the namespace exactly when no stored path of it is empty. */
  lemma ScopeCountIff(t: Table, ns: string)
    ensures |Scope(t, ns)| == |IdsOf(t, ns)| <==> forall id :: Has(t, ns, id) ==> t.rows[id].path != ""
  {
    var scope, all := Scope(t, ns), IdsOf(t, ns);
    assert all == scope + (all - scope);
    if forall id :: Has(t, ns, id) ==> t.rows[id].path != "" {
      assert scope == all;
    } else {
      var id: nat :| Has(t, ns, id) && t.rows[id].path == "";
      assert id in all - scope;
    }
  }

  /**
    What an empty path costs: a record with it is imported, a rotation leaves it as it was, and the engine that has just
    rotated refuses to read it, although the rotation seals any other plain entry.
   */
  lemma EmptyPathIsLeftBehind(lib: Libraries, t: Type, entry: Entry, oldKey: Key, newKey: Key, limit: nat)
    requires entry.encoding == "raw"
    ensures var r := Import(Table(map[], 0), "a", None, false, [Record("", entry, 100, 50)]);
            && r.Ok? && Valid(r.value) && Has(r.value, "a", 0)
            && forall rotated: Table :: AllRotated(lib.aead, r.value, rotated, "a", oldKey, newKey) ==>
                 && 0 in rotated.rows && rotated.rows[0] == r.value.rows[0]
                 && var left := rotated.rows[0].entry;
                    Decode(lib, t, left.content, left.encoding, "", limit, Some(newKey)) == Err(UnsealedEntry)
  {
    var record := Record("", entry, 100, 50);
    var (written, id) := Write(Table(map[], 0), Restored("a", record));
    assert id == 0 && written.rows == map[0 := Restored("a", record)];
    assert [record][1..] == [] && ImportAll(Table(map[], 0), "a", [record]).0 == written;
    KnownBaseIsPlain("raw");
  }

  /** A rotation moves no entry in the use order of any namespace. */
  lemma RotationKeepsUseOrder(a: Aead, t0: Table, t: Table, ns: string, oldKey: Key, newKey: Key, any: string)
    requires AllRotated(a, t0, t, ns, oldKey, newKey)
    ensures UseOrder(t, any) == UseOrder(t0, any)
  {
    var ids := UseOrder(t0, any);
    forall id | id in t0.rows
      ensures t.rows[id].namespace == t0.rows[id].namespace && t.rows[id].lastUsed == t0.rows[id].lastUsed
    {
    }
    forall i, j | 0 <= i < j < |ids|
      ensures Before(t, ids[i], ids[j])
    {
      assert ids[i] in ids && ids[j] in ids && Before(t0, ids[i], ids[j]);
    }
    UseOrderIs(t, any, ids);
  }

  /**
    A rotation preserves what every entry means: what was read under the old key, or was stored plain and read without
    one, is read as the same value under the new key.
   */
  lemma RotationKeepsValues(lib: Libraries, t: Type, before: Row, after: Row, oldKey: Key, newKey: Key, limit: nat)
    requires Opens(lib.aead) && Rotated(lib.aead, before, after, oldKey, newKey)
    ensures Rotatable(lib.aead, before, oldKey)
    ensures var e, e' := before.entry, after.entry;
            var (base, state) := ParseTag(e.encoding);
            var r := Decode(lib, t, e'.content, e'.encoding, after.path, limit, Some(newKey));
            var inner := InnerOf(lib.aead, e.content, e.encoding, before.path, oldKey).value;
            && r == Read(lib, t, Encoded(inner, base), limit)
            && (state.Bound? ==> r == Decode(lib, t, e.content, e.encoding, before.path, limit, Some(oldKey)))
            && (state.Plain? ==> r == Decode(lib, t, e.content, e.encoding, before.path, limit, None))
  {
    var e, e' := before.entry, after.entry;
    var (base, state) := ParseTag(e.encoding);
    RotatedOpens(lib.aead, before, after, oldKey, newKey);
    if state.Plain? {
      ParseTagIff(e.encoding, base, state);
      assert base + "" == base;
    }
  }

  lemma RotatedWasRotatable(a: Aead, before: Row, after: Row, oldKey: Key, newKey: Key)
    requires Rotated(a, before, after, oldKey, newKey)
    ensures Rotatable(a, before, oldKey)
  {
  }
}
