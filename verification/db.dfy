/**
 * The relational store, as two tables keyed by primary key, and the few
 * ORM primitives the persisters use: lookup by id, insert, save, and
 * queries whose row order the database leaves unspecified.
 */
module Db {
  import opened Wrappers
  import opened Errors
  import opened ArticleMapper
  import opened NewsroomTypes

  /** Both tables, with each table's next-id counter. */
  datatype Store = Store(
    articles: map<nat, ArticleRow>,
    newsrooms: map<nat, NewsroomRow>,
    nextArticleId: nat,
    nextNewsroomId: nat)

  const EmptyStore := Store(map[], map[], 1, 1)

  /**
   * The model's invariant over the store: every row sits under its own id,
   * ids are positive and below the table's next-id counter, and no two
   * newsrooms share an address (the unique index on newsrooms.address).
   */
  ghost predicate Valid(s: Store) {
    && 1 <= s.nextArticleId
    && 1 <= s.nextNewsroomId
    && (forall k | k in s.articles :: s.articles[k].id == k && 1 <= k < s.nextArticleId)
    && (forall k | k in s.newsrooms :: s.newsrooms[k].id == k && 1 <= k < s.nextNewsroomId)
    && (forall j, k | j in s.newsrooms && k in s.newsrooms && s.newsrooms[j].address == s.newsrooms[k].address :: j == k)
  }

  /** The ids of the newsrooms whose address is `address`. */
  function Holders(s: Store, address: string): (keys: set<nat>) {
    set k | k in s.newsrooms && s.newsrooms[k].address == address
  }

  /** The ids of the articles of the newsroom with address `address`: the rows pointing at it by address. */
  function Associated(s: Store, address: string): (keys: set<nat>) {
    set k | k in s.articles && s.articles[k].newsroomAddress == address
  }

  lemma EmptyStoreValid()
    ensures Valid(EmptyStore)
  {
  }

  /** In a valid store an address has at most one holder. */
  lemma HoldersAtMostOne(s: Store, address: string, k: nat)
    requires Valid(s)
    requires k in s.newsrooms && s.newsrooms[k].address == address
    ensures Holders(s, address) == {k}
  {
  }

  /**
   * gorm's Save of an article row: a row with id 0 is inserted under the
   * value of the table's next-id counter; any other row is written under its own id, replacing
   * what was there. Returns the store and the id the row was written under.
   */
  function SaveArticle(s: Store, row: ArticleRow): (r: (Store, nat))
    requires Valid(s)
    ensures Valid(r.0)
    ensures r.1 != 0
    ensures row.id != 0 ==> r.1 == row.id
    ensures row.id == 0 ==> r.1 !in s.articles
    ensures r.0.articles == s.articles[r.1 := row.(id := r.1)]
    ensures r.0.newsrooms == s.newsrooms
  {
    if row.id == 0 then
      var id := s.nextArticleId;
      (s.(articles := s.articles[id := row.(id := id)], nextArticleId := id + 1), id)
    else
      var next := if row.id < s.nextArticleId then s.nextArticleId else row.id + 1;
      (s.(articles := s.articles[row.id := row], nextArticleId := next), row.id)
  }

  /**
   * Inserting an article row (id 0) adds its new id to the association of its
   * own newsroom address and to no other.
   */
  lemma InsertGrowsAssociation(s: Store, row: ArticleRow)
    requires Valid(s)
    requires row.id == 0
    ensures
      var (s', k) := SaveArticle(s, row);
      && Associated(s', row.newsroomAddress) == Associated(s, row.newsroomAddress) + {k}
      && |Associated(s', row.newsroomAddress)| == |Associated(s, row.newsroomAddress)| + 1
      && forall other | other != row.newsroomAddress :: Associated(s', other) == Associated(s, other)
  {
  }

  /**
   * gorm's Create of a newsroom row: inserted under the value of the table's
   * next-id counter,
   * unless the unique index on address already holds that address.
   */
  function InsertNewsroom(s: Store, row: NewsroomRow): (r: Result<(Store, nat), Error>)
    requires Valid(s)
    ensures r.Err? <==> Holders(s, row.address) != {}
    ensures r.Err? ==> r.error == UniqueViolation
    ensures r.Ok? ==>
      var (s', id) := r.value;
      && Valid(s')
      && id != 0 && id !in s.newsrooms
      && s'.newsrooms == s.newsrooms[id := row.(id := id)]
      && s'.articles == s.articles
  {
    if Holders(s, row.address) != {} then
      Err(UniqueViolation)
    else
      var id := s.nextNewsroomId;
      assert forall k | k in s.newsrooms :: k !in Holders(s, row.address);
      Ok((s.(newsrooms := s.newsrooms[id := row.(id := id)], nextNewsroomId := id + 1), id))
  }

  /**
   * gorm's Save of an existing newsroom row: rewritten in place, unless the
   * unique index finds its address on another row.
   */
  function UpdateNewsroomRow(s: Store, row: NewsroomRow): (r: Result<Store, Error>)
    requires Valid(s)
    requires row.id in s.newsrooms
    ensures r.Err? <==> Holders(s, row.address) - {row.id} != {}
    ensures r.Err? ==> r.error == UniqueViolation
    ensures r.Ok? ==>
      && Valid(r.value)
      && r.value.newsrooms == s.newsrooms[row.id := row]
      && r.value.articles == s.articles
  {
    if Holders(s, row.address) - {row.id} != {} then
      Err(UniqueViolation)
    else
      assert forall k | k in s.newsrooms && k != row.id :: k !in Holders(s, row.address) - {row.id};
      Ok(s.(newsrooms := s.newsrooms[row.id := row]))
  }

  /**
   * The keys of `ks` in an order the database chooses: every key exactly once.
   */
  method Enumerate(ks: set<nat>) returns (order: seq<nat>)
    ensures |order| == |ks|
    ensures forall k :: k in order <==> k in ks
    ensures forall i, j | 0 <= i < j < |order| :: order[i] != order[j]
  {
    order := [];
    var rest := ks;
    while rest != {}
      invariant rest <= ks
      invariant forall k :: k in order <==> k in ks && k !in rest
      invariant forall i, j | 0 <= i < j < |order| :: order[i] != order[j]
      invariant |order| + |rest| == |ks|
      decreases rest
    {
      var k :| k in rest;
      order := order + [k];
      rest := rest - {k};
    }
  }

  /** A SELECT over the articles with ids in `keys`, in unspecified order. */
  method SelectArticles(s: Store, keys: set<nat>) returns (rows: seq<ArticleRow>)
    requires Valid(s)
    requires keys <= s.articles.Keys
    ensures |rows| == |keys|
    ensures forall i | 0 <= i < |rows| :: rows[i].id in keys && s.articles[rows[i].id] == rows[i]
    ensures forall i, j | 0 <= i < j < |rows| :: rows[i].id != rows[j].id
    ensures forall k | k in keys :: s.articles[k] in rows
  {
    var order := Enumerate(keys);
    rows := [];
    var i := 0;
    while i < |order|
      invariant 0 <= i <= |order|
      invariant |rows| == i
      invariant forall j | 0 <= j < i :: rows[j] == s.articles[order[j]] && rows[j].id == order[j]
    {
      assert order[i] in order;
      rows := rows + [s.articles[order[i]]];
      i := i + 1;
    }
    forall k | k in keys ensures s.articles[k] in rows {
      var j :| 0 <= j < |order| && order[j] == k;
      assert rows[j] == s.articles[k];
    }
  }

  /** A SELECT of the whole newsrooms table, in unspecified order. */
  method SelectNewsrooms(s: Store) returns (rows: seq<NewsroomRow>)
    requires Valid(s)
    ensures |rows| == |s.newsrooms|
    ensures forall i | 0 <= i < |rows| :: rows[i].id in s.newsrooms && s.newsrooms[rows[i].id] == rows[i]
    ensures forall i, j | 0 <= i < j < |rows| :: rows[i].id != rows[j].id
    ensures forall k | k in s.newsrooms :: s.newsrooms[k] in rows
  {
    var order := Enumerate(s.newsrooms.Keys);
    rows := [];
    var i := 0;
    while i < |order|
      invariant 0 <= i <= |order|
      invariant |rows| == i
      invariant forall j | 0 <= j < i :: rows[j] == s.newsrooms[order[j]] && rows[j].id == order[j]
    {
      assert order[i] in order;
      rows := rows + [s.newsrooms[order[i]]];
      i := i + 1;
    }
    forall k | k in s.newsrooms ensures s.newsrooms[k] in rows {
      var j :| 0 <= j < |order| && order[j] == k;
      assert rows[j] == s.newsrooms[k];
    }
  }
}
