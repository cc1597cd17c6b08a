/**
 * The store-writing helpers of app/settings.go: AddURL and AddUser. (The AddMonitor
 * notify gate is Store.Notify, the callback every created price record reaches.)
 * Values that come from the environment (the admin's name, email and password) are
 * parameters.
 */
module Settings {
  import opened Store
  import ServerClass

  /** The values the "type" select field of the urls collection accepts. */
  const UrlKinds: set<string> := {"wishlist", "product"}

  /** The url type AddURL stores: "product" when the first optional flag is given and set,
      "wishlist" otherwise. */
  function UrlKind(flags: seq<bool>): (kind: string)
    ensures kind in UrlKinds
    ensures kind == "product" <==> |flags| > 0 && flags[0]
  {
    if |flags| > 0 && flags[0] then "product" else "wishlist"
  }

  predicate HasUrl(urls: seq<UrlRec>, url: string) {
    exists k :: 0 <= k < |urls| && urls[k].url == url
  }

  /** What AddURL does to the store: nothing without a "urls" collection; otherwise a Save of
      {url, type} that fails on a store error, an empty url or a url already stored (the
      collection's unique index). */
  function AddUrl(db: Db, url: string, flags: seq<bool>): Db {
    if "urls" !in db.schemas then db
    else if Faulted(db) || url == "" || HasUrl(db.urls, url) then Tick(db)
    else
      var rec := UrlRec(db.nextId, url, UrlKind(flags), db.clock, db.clock);
      Tick(db).(urls := db.urls + [rec], nextId := db.nextId + 1)
  }

  /** The account AddUser saves into `collection`: the name is set, and the account marked
      verified, only when the collection has a "name" field. */
  function NewAccount(collection: string, fields: seq<string>, name: string, email: string, password: string): (a: Account)
    ensures a.verified <==> "name" in fields
    ensures a.name == (if "name" in fields then name else "")
    ensures a.collection == collection && a.email == email && a.password == password
  {
    var named := "name" in fields;
    Account(collection, if named then name else "", named, email, password)
  }

  /** What AddUser does to the store: nothing when the collection is missing; otherwise a Save
      of the new account that fails on a store error. */
  function AddAccount(db: Db, collection: string, name: string, email: string, password: string): Db {
    if collection !in db.schemas then db
    else if Faulted(db) then Tick(db)
    else
      var a := NewAccount(collection, db.schemas[collection], name, email, password);
      Tick(db).(accounts := db.accounts + [a], nextId := db.nextId + 1)
  }

  /** AddURL: finds the urls collection, builds the record {url, type} and saves it. */
  method AddURL(s: ServerClass.Server, url: string, flags: seq<bool>)
    modifies s
    ensures s.State() == AddUrl(old(s.State()), url, flags)
  {
    if "urls" !in s.schemas {
      return;
    }
    var kind := "wishlist";
    if |flags| > 0 {
      if flags[0] {
        kind := "product";
      }
    }
    if !(s.clock in s.faults || url == "" || HasUrl(s.urls, url)) {
      s.urls := s.urls + [UrlRec(s.nextId, url, kind, s.clock, s.clock)];
      s.nextId := s.nextId + 1;
    }
    s.clock := s.clock + 1;
  }

  /** AddUser: finds the collection, fills in the account and saves it. */
  method AddUser(s: ServerClass.Server, collection: string, name: string, email: string, password: string)
    modifies s
    ensures s.State() == AddAccount(old(s.State()), collection, name, email, password)
  {
    if collection !in s.schemas {
      return;
    }
    var fields := s.schemas[collection];
    var account := Account(collection, "", false, "", "");
    if "name" in fields {
      account := account.(name := name, verified := true);
    }
    account := account.(email := email, password := password);
    if !(s.clock in s.faults) {
      s.accounts := s.accounts + [account];
      s.nextId := s.nextId + 1;
    }
    s.clock := s.clock + 1;
  }

  // ---------------------------------------------------------------------------
  // Properties

  /** A url that AddURL stored is listed by GetURLs, after the urls already stored. */
  lemma AddedUrlListed(db: Db, url: string, flags: seq<bool>)
    requires AddUrl(db, url, flags).urls != db.urls
    ensures var after := AddUrl(db, url, flags).urls;
      |after| == |db.urls| + 1 && after[..|db.urls|] == db.urls &&
      after[|db.urls|].url == url && after[|db.urls|].kind == UrlKind(flags)
  {
    assert AddUrl(db, url, flags).urls[..|db.urls|] == db.urls;
  }

  /** AddURL creates nothing when the urls collection is missing, when the url is empty or
      already stored, or when the store reports an error. */
  lemma AddUrlRefused(db: Db, url: string, flags: seq<bool>)
    ensures AddUrl(db, url, flags).urls == db.urls <==>
      "urls" !in db.schemas || Faulted(db) || url == "" || HasUrl(db.urls, url)
    ensures "urls" !in db.schemas ==> AddUrl(db, url, flags) == db
  {
    if !("urls" !in db.schemas || Faulted(db) || url == "" || HasUrl(db.urls, url)) {
      assert |AddUrl(db, url, flags).urls| == |db.urls| + 1;
    }
  }

  /** No url is ever stored twice. */
  lemma UrlsStayUnique(db: Db, url: string, flags: seq<bool>)
    requires forall i, j :: 0 <= i < j < |db.urls| ==> db.urls[i].url != db.urls[j].url
    ensures var after := AddUrl(db, url, flags).urls;
      forall i, j :: 0 <= i < j < |after| ==> after[i].url != after[j].url
  {
  }

  /** AddUser sets the name and marks the account verified exactly when the collection has a
      "name" field; the account is otherwise stored as given. */
  lemma AddedAccount(db: Db, collection: string, name: string, email: string, password: string)
    requires collection in db.schemas && !Faulted(db)
    ensures var after := AddAccount(db, collection, name, email, password).accounts;
      |after| == |db.accounts| + 1 && after[..|db.accounts|] == db.accounts &&
      var a := after[|db.accounts|];
      (a.verified <==> "name" in db.schemas[collection]) &&
      a.name == (if "name" in db.schemas[collection] then name else "") &&
      a.email == email && a.password == password
  {
    assert AddAccount(db, collection, name, email, password).accounts[..|db.accounts|] == db.accounts;
  }
}
