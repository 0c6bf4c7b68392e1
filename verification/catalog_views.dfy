/** The list and detail views of the five catalogs (aktor, sutradara, genre,
    negara, bahasa): one set of handlers over the generic store, applied to
    the store of the kind named. */
module CatalogViews {
  import opened Wrappers
  import opened Tables
  import opened Responses
  import opened Fields
  import opened Models
  import opened Serializers

  function Show(t: Table<string>, id: nat): Entry
    requires id in t.rows
  {
    Entry(id, t.rows[id])
  }

  /** Every entry, by ascending id. */
  function ShowAll(t: Table<string>): (r: seq<Entry>)
    ensures forall i :: 0 <= i < |r| ==> r[i].id in t.rows && r[i].name == t.rows[r[i].id]
    ensures forall id :: id in t.rows ==> exists i :: 0 <= i < |r| && r[i].id == id
    ensures forall i, j :: 0 <= i < j < |r| ==> r[i].id < r[j].id
  {
    var ids := Ids(t);
    var r := seq(|ids|, i requires 0 <= i < |ids| => Entry(ids[i], t.rows[ids[i]]));
    EveryIdShown(ids, r);
    r
  }

  lemma EveryIdShown(ids: seq<nat>, r: seq<Entry>)
    requires |r| == |ids| && forall i :: 0 <= i < |r| ==> r[i].id == ids[i]
    ensures forall id :: id in ids ==> exists i :: 0 <= i < |r| && r[i].id == id
  {
    forall id | id in ids
      ensures exists i :: 0 <= i < |r| && r[i].id == id
    {
      var i :| 0 <= i < |ids| && ids[i] == id;
      assert r[i].id == id;
    }
  }

  /** GET on the list view. */
  function List(db: Db, k: CatalogKind): (x: Exchange<Db, Entry>)
    ensures x.state == db
    ensures x.reply.Envelope? && x.reply.status == OK && x.reply.message == ListedAll && x.reply.data.Items?
    ensures var es := x.reply.data.items;
      && (forall i :: 0 <= i < |es| ==> es[i].id in Catalog(db, k).rows && es[i].name == Catalog(db, k).rows[es[i].id])
      && (forall id :: id in Catalog(db, k).rows ==> exists i :: 0 <= i < |es| && es[i].id == id)
      && (forall i, j :: 0 <= i < j < |es| ==> es[i].id < es[j].id)
  {
    Exchange(Envelope(OK, ListedAll, Items(ShowAll(Catalog(db, k)))), db)
  }

  /** POST on the list view, with the name the request carried (None when the
      key was absent). */
  function Create(db: Db, k: CatalogKind, name: Option<string>): (x: Exchange<Db, Entry>)
    ensures CatalogName(k, name).Failure? ==> x == Exchange(Bare(BAD_REQUEST, CatalogName(k, name).error), db)
    ensures CatalogName(k, name).Success? ==>
      && x.reply.Envelope? && x.reply.status == CREATED && x.reply.message == Created
      && x.reply.data.Item?
      && var e := x.reply.data.item;
      && e.id !in Catalog(db, k).rows
      && e.name == CatalogName(k, name).value
      && Catalog(x.state, k).rows == Catalog(db, k).rows[e.id := e.name]
      && x.state == WithCatalog(db, k, Catalog(x.state, k))
  {
    match CatalogName(k, name)
    case Failure(errors) => Exchange(Bare(BAD_REQUEST, errors), db)
    case Success(v) =>
      var (t, id) := Insert(Catalog(db, k), v);
      Exchange(Envelope(CREATED, Created, Item(Entry(id, v))), WithCatalog(db, k, t))
  }

  /** GET on the detail view. */
  function Retrieve(db: Db, k: CatalogKind, id: nat): (x: Exchange<Db, Entry>)
    ensures x.state == db
    ensures id !in Catalog(db, k).rows <==> x.reply == Envelope(NOT_FOUND, MissingOnGet, EmptyObject)
    ensures id in Catalog(db, k).rows ==> x.reply == Envelope(OK, Retrieved, Item(Entry(id, Catalog(db, k).rows[id])))
  {
    if id in Catalog(db, k).rows then Exchange(Envelope(OK, Retrieved, Item(Show(Catalog(db, k), id))), db)
    else Exchange(Envelope(NOT_FOUND, MissingOnGet, EmptyObject), db)
  }

  /** PUT on the detail view: only the name column of that entry changes. */
  function Update(db: Db, k: CatalogKind, id: nat, name: Option<string>): (x: Exchange<Db, Entry>)
    ensures id !in Catalog(db, k).rows ==> x == Exchange(Envelope(BAD_REQUEST, MissingOnPut, EmptyObject), db)
    ensures id in Catalog(db, k).rows && CatalogName(k, name).Failure? ==>
      x == Exchange(Bare(BAD_REQUEST, CatalogName(k, name).error), db)
    ensures id in Catalog(db, k).rows && CatalogName(k, name).Success? ==>
      && x.reply == Envelope(OK, Updated, Item(Entry(id, CatalogName(k, name).value)))
      && Catalog(x.state, k).rows == Catalog(db, k).rows[id := CatalogName(k, name).value]
      && x.state == WithCatalog(db, k, Catalog(x.state, k))
  {
    if id !in Catalog(db, k).rows then Exchange(Envelope(BAD_REQUEST, MissingOnPut, EmptyObject), db)
    else
      match CatalogName(k, name)
      case Failure(errors) => Exchange(Bare(BAD_REQUEST, errors), db)
      case Success(v) =>
        Exchange(Envelope(OK, Updated, Item(Entry(id, v))), WithCatalog(db, k, Put(Catalog(db, k), id, v)))
  }

  /** DELETE on the detail view; the success envelope has no `data` key. */
  function Delete(db: Db, k: CatalogKind, id: nat): (x: Exchange<Db, Entry>)
    ensures id !in Catalog(db, k).rows ==> x == Exchange(Envelope(BAD_REQUEST, MissingOnDelete, EmptyObject), db)
    ensures id in Catalog(db, k).rows ==>
      && x.reply == Envelope(OK, Deleted, Omitted)
      && x.state == DeleteCatalogEntry(db, k, id)
      && Catalog(x.state, k).rows == Catalog(db, k).rows - {id}
      && (forall j :: j != k ==> Catalog(x.state, j) == Catalog(db, j))
      && (forall fid :: fid in db.films.rows ==>
            (fid in x.state.films.rows && Related(x.state.films.rows[fid], k) == Related(db.films.rows[fid], k) - {id}))
  {
    if id !in Catalog(db, k).rows then Exchange(Envelope(BAD_REQUEST, MissingOnDelete, EmptyObject), db)
    else Exchange(Envelope(OK, Deleted, Omitted), DeleteCatalogEntry(db, k, id))
  }

  // ---------------------------------------------------------------------------
  // How the handlers compose

  /** The id a successful create answers with retrieves the stored name. */
  lemma CreateThenRetrieve(db: Db, k: CatalogKind, name: Option<string>)
    requires Create(db, k, name).reply.Envelope? && Create(db, k, name).reply.status == CREATED
    ensures var x := Create(db, k, name);
      Retrieve(x.state, k, x.reply.data.item.id).reply == Envelope(OK, Retrieved, x.reply.data)
  {
  }

  /** After a successful update, retrieving the id yields the new name, and
      every other entry of every catalog reads as before. */
  lemma UpdateThenRetrieve(db: Db, k: CatalogKind, id: nat, name: Option<string>, j: CatalogKind, other: nat)
    requires Update(db, k, id, name).reply.Envelope? && Update(db, k, id, name).reply.status == OK
    requires j != k || other != id
    ensures var s := Update(db, k, id, name).state;
      && Retrieve(s, k, id).reply == Envelope(OK, Retrieved, Item(Entry(id, Strip(name.value))))
      && Retrieve(s, j, other) == Retrieve(db, j, other).(state := s)
  {
  }

  /** A deleted id is gone: retrieving it now gives 404, and no entry other
      than it has changed. */
  lemma DeleteThenRetrieve(db: Db, k: CatalogKind, id: nat, j: CatalogKind, other: nat)
    requires id in Catalog(db, k).rows
    requires j != k || other != id
    ensures var s := Delete(db, k, id).state;
      && Retrieve(s, k, id).reply == Envelope(NOT_FOUND, MissingOnGet, EmptyObject)
      && Retrieve(s, j, other) == Retrieve(db, j, other).(state := s)
  {
  }

  /** Every catalog handler keeps the database consistent. */
  lemma {:induction false} CreateKeepsConsistent(db: Db, k: CatalogKind, name: Option<string>)
    requires Consistent(db)
    ensures Consistent(Create(db, k, name).state)
  {
    if CatalogName(k, name).Success? {
      NewNameKeepsConsistent(db, k, Create(db, k, name).state);
    }
  }

  lemma {:induction false} UpdateKeepsConsistent(db: Db, k: CatalogKind, id: nat, name: Option<string>)
    requires Consistent(db)
    ensures Consistent(Update(db, k, id, name).state)
  {
    if CatalogName(k, name).Success? && id in Catalog(db, k).rows {
      NewNameKeepsConsistent(db, k, Update(db, k, id, name).state);
    }
  }

  lemma {:induction false} DeleteKeepsConsistent(db: Db, k: CatalogKind, id: nat)
    requires Consistent(db)
    ensures Consistent(Delete(db, k, id).state)
  {
    if id in Catalog(db, k).rows {
      DeleteCatalogEntryConsistent(db, k, id);
    }
  }

  /** Changing one catalog so that it only gains keys and holds valid names
      keeps the database consistent. */
  lemma {:induction false} NewNameKeepsConsistent(db: Db, k: CatalogKind, s: Db)
    requires Consistent(db)
    requires s == WithCatalog(db, k, Catalog(s, k))
    requires Catalog(db, k).rows.Keys <= Catalog(s, k).rows.Keys
    requires forall id :: id in Catalog(s, k).rows ==> 0 < |Catalog(s, k).rows[id]| <= NameLimit(k)
    ensures Consistent(s)
  {
    forall fid, j | fid in s.films.rows
      ensures Related(s.films.rows[fid], j) <= Catalog(s, j).rows.Keys
    {
      assert Related(db.films.rows[fid], j) <= Catalog(db, j).rows.Keys;
    }
  }
}
