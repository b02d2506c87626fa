/** The Address resource: an in-memory table of addresses keyed by a
    generated id, the services linked to them, and one handler per route
    (list, create, update, delete, query, services of an address). */
module AddressRoutes {
  import opened Wrappers
  import opened ApiUtils

  // ---------------------------------------------------------------------
  // Records

  /** The five fields of an address; `postNo` is an integer, the rest text. */
  datatype Address = Address(streetNo: string, street: string, city: string, post: string, postNo: int)

  /** A stored address together with its generated id. */
  datatype Row = Row(id: int, address: Address)

  /** A service record; only the address it belongs to matters here. */
  datatype Service = Service(id: int, addressId: int)

  /** The address fields a request supplies, each possibly absent: the body
      of a partial update, or the arguments of a query. */
  datatype Partial = Partial(
    streetNo: Option<string>, street: Option<string>, city: Option<string>,
    post: Option<string>, postNo: Option<int>)

  /** One supplied field with its value: a key/value pair of a payload. */
  datatype FieldValue =
    | StreetNo(s: string)
    | Street(s: string)
    | City(s: string)
    | Post(s: string)
    | PostNo(n: int)

  /** What the handler produced as its body: `Xml` a `to_xml` document,
      `Json` a `jsonify`-ed response, and `Plain` a bare Python value. The
      representation the web framework then applies to every return value
      other than a finished response object is not part of this model. */
  datatype Format = Xml | Json | Plain

  datatype Body =
    | AddressBody(row: Row)
    | AddressesBody(rows: seq<Row>)
    | ServicesBody(services: seq<Service>)
    | MessageBody(message: string)
    | ErrorBody(messages: seq<string>)   // the messages wrapped under `error`
    | RawErrors(messages: seq<string>)   // the messages themselves
    | EmptyBody

  datatype Response = Response(status: int, format: Format, body: Body)

  const NotFoundMessage: string := "Address not found"
  const DuplicateMessage: string := "Address with these details already exists"

  // ---------------------------------------------------------------------
  // Attribute access by name

  /** The attribute names of an address. */
  datatype Field = StreetNoKey | StreetKey | CityKey | PostKey | PostNoKey

  /** An attribute value: text, or the integer `postNo`. */
  datatype Value = Text(text: string) | Number(number: int)

  /** `getattr(address, key)`. */
  function Get(a: Address, k: Field): (v: Value)
    ensures v.Number? <==> k == PostNoKey
  {
    match k
    case StreetNoKey => Text(a.streetNo)
    case StreetKey => Text(a.street)
    case CityKey => Text(a.city)
    case PostKey => Text(a.post)
    case PostNoKey => Number(a.postNo)
  }

  /** The value a payload supplies for `key`, if any. */
  function Supplied(p: Partial, k: Field): Option<Value> {
    match k
    case StreetNoKey => if p.streetNo.Some? then Some(Text(p.streetNo.value)) else None
    case StreetKey => if p.street.Some? then Some(Text(p.street.value)) else None
    case CityKey => if p.city.Some? then Some(Text(p.city.value)) else None
    case PostKey => if p.post.Some? then Some(Text(p.post.value)) else None
    case PostNoKey => if p.postNo.Some? then Some(Number(p.postNo.value)) else None
  }

  /** Python truthiness: the empty string and 0 are false. */
  predicate TruthyValue(v: Value) {
    v != Text("") && v != Number(0)
  }

  function Key(f: FieldValue): Field {
    match f
    case StreetNo(_) => StreetNoKey
    case Street(_) => StreetKey
    case City(_) => CityKey
    case Post(_) => PostKey
    case PostNo(_) => PostNoKey
  }

  function Val(f: FieldValue): Value {
    match f
    case PostNo(n) => Number(n)
    case _ => Text(f.s)
  }

  // ---------------------------------------------------------------------
  // Supplied fields, one at a time

  /** The pair a payload yields for `k`: none when the key is absent. */
  function Piece(p: Partial, k: Field): (r: seq<FieldValue>)
    ensures |r| <= 1
    ensures forall f :: f in r <==> Key(f) == k && Supplied(p, k) == Some(Val(f))
  {
    match k
    case StreetNoKey => if p.streetNo.Some? then [StreetNo(p.streetNo.value)] else []
    case StreetKey => if p.street.Some? then [Street(p.street.value)] else []
    case CityKey => if p.city.Some? then [City(p.city.value)] else []
    case PostKey => if p.post.Some? then [Post(p.post.value)] else []
    case PostNoKey => if p.postNo.Some? then [PostNo(p.postNo.value)] else []
  }

  /** No two pairs name the same key. */
  predicate DistinctKeys(fs: seq<FieldValue>) {
    forall i, j :: 0 <= i < j < |fs| ==> Key(fs[i]) != Key(fs[j])
  }

  /** Two runs of pairs with distinct keys and no key in common
      concatenate to a run with distinct keys. */
  lemma AppendDistinctKeys(s: seq<FieldValue>, t: seq<FieldValue>)
    requires DistinctKeys(s) && DistinctKeys(t)
    requires forall f, g :: f in s && g in t ==> Key(f) != Key(g)
    ensures DistinctKeys(s + t)
  {
    forall i, j | 0 <= i < j < |s + t| ensures Key((s + t)[i]) != Key((s + t)[j]) {
      if i >= |s| {
        assert (s + t)[i] == t[i - |s|] && (s + t)[j] == t[j - |s|];
      } else if j >= |s| {
        assert (s + t)[i] in s && (s + t)[j] in t;
      }
    }
  }

  /** `data.items()` / `args.items()` restricted to the keys that carry a
      value: each supplied key once, with its value. */
  function Items(p: Partial): (items: seq<FieldValue>)
    ensures forall f :: f in items <==> Supplied(p, Key(f)) == Some(Val(f))
    ensures forall i, j :: 0 <= i < j < |items| ==> Key(items[i]) != Key(items[j])
  {
    var tail := Piece(p, PostKey) + Piece(p, PostNoKey);
    AppendDistinctKeys(Piece(p, PostKey), Piece(p, PostNoKey));
    AppendDistinctKeys(Piece(p, CityKey), tail);
    AppendDistinctKeys(Piece(p, StreetKey), Piece(p, CityKey) + tail);
    AppendDistinctKeys(Piece(p, StreetNoKey), Piece(p, StreetKey) + (Piece(p, CityKey) + tail));
    Piece(p, StreetNoKey) + (Piece(p, StreetKey) + (Piece(p, CityKey) + tail))
  }

  /** `setattr(address, key, value)`: that attribute now has the value and
      every other attribute is as before. */
  function SetField(a: Address, f: FieldValue): (r: Address)
    ensures Get(r, Key(f)) == Val(f)
    ensures forall k :: k != Key(f) ==> Get(r, k) == Get(a, k)
  {
    match f
    case StreetNo(s) => a.(streetNo := s)
    case Street(s) => a.(street := s)
    case City(s) => a.(city := s)
    case Post(s) => a.(post := s)
    case PostNo(n) => a.(postNo := n)
  }

  /** The equality filter `getattr(Address, key) == value`. */
  predicate Holds(f: FieldValue, a: Address)
    ensures Holds(f, a) <==> SetField(a, f) == a
  {
    Get(a, Key(f)) == Val(f)
  }

  /** `if value`: the pair filters only when its value is truthy. */
  predicate Truthy(f: FieldValue)
    ensures f.PostNo? ==> (Truthy(f) <==> f.n != 0)
    ensures !f.PostNo? ==> (Truthy(f) <==> f.s != "")
  {
    TruthyValue(Val(f))
  }

  // ---------------------------------------------------------------------
  // Partial update

  /** The partial update, field by field: a supplied field takes the new
      value (whatever it is), an absent one keeps the old value. */
  function Patch(a: Address, p: Partial): (r: Address)
    ensures forall k :: Get(r, k) == Supplied(p, k).GetOr(Get(a, k))
  {
    Address(
      p.streetNo.GetOr(a.streetNo), p.street.GetOr(a.street), p.city.GetOr(a.city),
      p.post.GetOr(a.post), p.postNo.GetOr(a.postNo))
  }

  /** The `setattr` loop: the supplied pairs applied left to right. */
  function ApplyAll(a: Address, fs: seq<FieldValue>): (r: Address)
    ensures forall k :: (forall j :: 0 <= j < |fs| ==> Key(fs[j]) != k) ==> Get(r, k) == Get(a, k)
    ensures |fs| > 0 ==> Get(r, Key(fs[|fs| - 1])) == Val(fs[|fs| - 1])
  {
    if fs == [] then a else SetField(ApplyAll(a, fs[..|fs| - 1]), fs[|fs| - 1])
  }

  /** Applying two runs of pairs one after the other is applying their
      concatenation. */
  lemma {:induction false} ApplyAllAppend(a: Address, s: seq<FieldValue>, t: seq<FieldValue>)
    ensures ApplyAll(a, s + t) == ApplyAll(ApplyAll(a, s), t)
  {
    if t == [] {
      assert s + t == s;
    } else {
      assert (s + t)[..|s + t| - 1] == s + t[..|t| - 1];
      ApplyAllAppend(a, s, t[..|t| - 1]);
    }
  }

  /** For every key, the last pair that names it decides its value. */
  lemma {:induction false} LastWriteWins(a: Address, fs: seq<FieldValue>, j: int)
    requires 0 <= j < |fs|
    requires forall j' :: j < j' < |fs| ==> Key(fs[j']) != Key(fs[j])
    ensures Get(ApplyAll(a, fs), Key(fs[j])) == Val(fs[j])
  {
    var n := |fs| - 1;
    if j < n {
      var init := fs[..n];
      forall j' | j < j' < |init| ensures Key(init[j']) != Key(init[j]) {
        assert init[j'] == fs[j'];
      }
      LastWriteWins(a, init, j);
    }
  }

  /** Two addresses with equal attributes are equal. */
  lemma GetExtensional(a: Address, b: Address)
    requires forall k :: Get(a, k) == Get(b, k)
    ensures a == b
  {
    assert Get(a, StreetNoKey) == Get(b, StreetNoKey) && Get(a, StreetKey) == Get(b, StreetKey);
    assert Get(a, CityKey) == Get(b, CityKey) && Get(a, PostKey) == Get(b, PostKey);
    assert Get(a, PostNoKey) == Get(b, PostNoKey);
  }

  /** A supplied key is named by some pair of `Items`; an absent one by none. */
  lemma ItemsNameSuppliedKeys(p: Partial, k: Field)
    ensures Supplied(p, k).Some? ==> exists j :: 0 <= j < |Items(p)| && Key(Items(p)[j]) == k
    ensures Supplied(p, k).None? ==> forall j :: 0 <= j < |Items(p)| ==> Key(Items(p)[j]) != k
  {
    var items := Items(p);
    if Supplied(p, k).Some? {
      var f := match k
        case StreetNoKey => StreetNo(p.streetNo.value)
        case StreetKey => Street(p.street.value)
        case CityKey => City(p.city.value)
        case PostKey => Post(p.post.value)
        case PostNoKey => PostNo(p.postNo.value);
      assert f in items;
    } else {
      forall j | 0 <= j < |items| ensures Key(items[j]) != k {
        assert items[j] in items;
      }
    }
  }

  /** The `setattr` loop gives each attribute the value the partial update
      gives it. */
  lemma PatchByItemsAt(a: Address, p: Partial, k: Field)
    ensures Get(ApplyAll(a, Items(p)), k) == Get(Patch(a, p), k)
  {
    var items := Items(p);
    ItemsNameSuppliedKeys(p, k);
    if Supplied(p, k).Some? {
      var j :| 0 <= j < |items| && Key(items[j]) == k;
      LastWriteWins(a, items, j);
      assert items[j] in items;
    }
  }

  /** The `setattr` loop over the supplied pairs performs exactly the
      field-by-field partial update. */
  lemma PatchByItems(a: Address, p: Partial)
    ensures ApplyAll(a, Items(p)) == Patch(a, p)
  {
    forall k ensures Get(ApplyAll(a, Items(p)), k) == Get(Patch(a, p), k) {
      PatchByItemsAt(a, p, k);
    }
    GetExtensional(ApplyAll(a, Items(p)), Patch(a, p));
  }

  /** An update that supplies nothing leaves the address as it was. */
  lemma PatchNothing(a: Address)
    ensures Patch(a, Partial(None, None, None, None, None)) == a
  {
  }

  /** Updating twice with the same payload is updating once. */
  lemma PatchIdempotent(a: Address, p: Partial)
    ensures Patch(Patch(a, p), p) == Patch(a, p)
  {
  }

  /** Example: `{city: "Y"}` over `1 Main, X, P 1` changes the city only. */
  lemma PatchCityOnly()
    ensures Patch(Address("1", "Main", "X", "P", 1), Partial(None, None, Some("Y"), None, None))
         == Address("1", "Main", "Y", "P", 1)
  {
  }

  // ---------------------------------------------------------------------
  // Query filters

  /** A per-key condition holds of every key iff it holds of the five
      keys one by one. */
  lemma MatchesKeyByKey(p: Partial, a: Address)
    ensures (forall k :: Supplied(p, k).Some? && TruthyValue(Supplied(p, k).value) ==> Get(a, k) == Supplied(p, k).value) <==>
            (p.streetNo.Some? && p.streetNo.value != "" ==> a.streetNo == p.streetNo.value) &&
            (p.street.Some? && p.street.value != "" ==> a.street == p.street.value) &&
            (p.city.Some? && p.city.value != "" ==> a.city == p.city.value) &&
            (p.post.Some? && p.post.value != "" ==> a.post == p.post.value) &&
            (p.postNo.Some? && p.postNo.value != 0 ==> a.postNo == p.postNo.value)
  {
    assert Supplied(p, StreetNoKey).Some? ==> Supplied(p, StreetNoKey).value == Text(p.streetNo.value);
    assert Supplied(p, StreetKey).Some? ==> Supplied(p, StreetKey).value == Text(p.street.value);
    assert Supplied(p, CityKey).Some? ==> Supplied(p, CityKey).value == Text(p.city.value);
    assert Supplied(p, PostKey).Some? ==> Supplied(p, PostKey).value == Text(p.post.value);
    assert Supplied(p, PostNoKey).Some? ==> Supplied(p, PostNoKey).value == Number(p.postNo.value);
  }

  /** The query match, field by field: every supplied truthy argument must
      equal the address's field; absent and falsy arguments add no filter. */
  predicate Matches(p: Partial, a: Address)
    ensures Matches(p, a) <==>
      forall k :: Supplied(p, k).Some? && TruthyValue(Supplied(p, k).value) ==> Get(a, k) == Supplied(p, k).value
  {
    MatchesKeyByKey(p, a);
    (p.streetNo.Some? && p.streetNo.value != "" ==> a.streetNo == p.streetNo.value) &&
    (p.street.Some? && p.street.value != "" ==> a.street == p.street.value) &&
    (p.city.Some? && p.city.value != "" ==> a.city == p.city.value) &&
    (p.post.Some? && p.post.value != "" ==> a.post == p.post.value) &&
    (p.postNo.Some? && p.postNo.value != 0 ==> a.postNo == p.postNo.value)
  }

  /** Every truthy pair of `fs` holds of `a`. */
  predicate AllHold(fs: seq<FieldValue>, a: Address)
    ensures AllHold(fs, a) <==> forall f :: f in fs && Truthy(f) ==> Holds(f, a)
  {
    forall k :: 0 <= k < |fs| && Truthy(fs[k]) ==> Holds(fs[k], a)
  }

  lemma AllHoldAppend(s: seq<FieldValue>, t: seq<FieldValue>, a: Address)
    ensures AllHold(s + t, a) <==> AllHold(s, a) && AllHold(t, a)
  {
    if AllHold(s, a) && AllHold(t, a) {
      forall k | 0 <= k < |s + t| && Truthy((s + t)[k]) ensures Holds((s + t)[k], a) {
        if k >= |s| {
          assert (s + t)[k] == t[k - |s|];
        }
      }
    }
    if AllHold(s + t, a) {
      forall k | 0 <= k < |s| && Truthy(s[k]) ensures Holds(s[k], a) {
        assert (s + t)[k] == s[k];
      }
      forall k | 0 <= k < |t| && Truthy(t[k]) ensures Holds(t[k], a) {
        assert (s + t)[|s| + k] == t[k];
      }
    }
  }

  /** A single pair filters only when its value is truthy. */
  lemma AllHoldSingle(f: FieldValue, a: Address)
    ensures AllHold([f], a) <==> (Truthy(f) ==> Holds(f, a))
  {
    assert [f][0] == f;
  }

  /** The filter for one key holds iff a truthy argument for it, if any,
      equals the attribute. */
  lemma AllHoldPiece(p: Partial, k: Field, a: Address)
    ensures AllHold(Piece(p, k), a) <==>
      (Supplied(p, k).Some? && TruthyValue(Supplied(p, k).value) ==> Get(a, k) == Supplied(p, k).value)
  {
    var r := Piece(p, k);
    if r != [] {
      assert r[0] in r;
      assert r == [r[0]];
      AllHoldSingle(r[0], a);
    } else if Supplied(p, k).Some? {
      assert false;
    }
  }

  /** The chain of filters built from the supplied arguments accepts
      exactly the addresses `Matches` accepts. */
  lemma MatchesByItems(p: Partial, a: Address)
    ensures Matches(p, a) <==> AllHold(Items(p), a)
  {
    var tail := Piece(p, PostKey) + Piece(p, PostNoKey);
    AllHoldAppend(Piece(p, PostKey), Piece(p, PostNoKey), a);
    AllHoldAppend(Piece(p, CityKey), tail, a);
    AllHoldAppend(Piece(p, StreetKey), Piece(p, CityKey) + tail, a);
    AllHoldAppend(Piece(p, StreetNoKey), Piece(p, StreetKey) + (Piece(p, CityKey) + tail), a);
    AllHoldPiece(p, StreetNoKey, a);
    AllHoldPiece(p, StreetKey, a);
    AllHoldPiece(p, CityKey, a);
    AllHoldPiece(p, PostKey, a);
    AllHoldPiece(p, PostNoKey, a);
  }

  /** Arguments that are absent, empty or 0 filter nothing out. */
  lemma FalsyArgumentsMatchAll(p: Partial, a: Address)
    requires p.streetNo.Some? ==> p.streetNo.value == ""
    requires p.street.Some? ==> p.street.value == ""
    requires p.city.Some? ==> p.city.value == ""
    requires p.post.Some? ==> p.post.value == ""
    requires p.postNo.Some? ==> p.postNo.value == 0
    ensures Matches(p, a)
  {
  }

  /** Example: `?city=Springfield` keeps exactly the addresses whose city is
      `Springfield`, compared exactly. */
  lemma CityQueryIsExact(a: Address)
    ensures Matches(Partial(None, None, Some("Springfield"), None, None), a) <==> a.city == "Springfield"
  {
  }

  // ---------------------------------------------------------------------
  // Row sequences

  /** Ids strictly increase along the sequence. */
  predicate Increasing(rs: seq<Row>) {
    forall i, j :: 0 <= i < j < |rs| ==> rs[i].id < rs[j].id
  }

  /** The stored rows whose ids lie in `[lo, hi)`, in ascending id order. */
  function Rows(m: map<int, Address>, lo: int, hi: int): (rs: seq<Row>)
    ensures forall r :: r in rs <==> lo <= r.id < hi && r.id in m && m[r.id] == r.address
    ensures Increasing(rs)
    decreases hi - lo
  {
    if lo >= hi then []
    else if lo in m then [Row(lo, m[lo])] + Rows(m, lo + 1, hi)
    else Rows(m, lo + 1, hi)
  }

  /** `query.filter(...)` for one pair: the rows it holds of, in order. */
  function Keep(rs: seq<Row>, f: FieldValue): (kept: seq<Row>)
    ensures forall r :: r in kept <==> r in rs && Holds(f, r.address)
    ensures Increasing(rs) ==> Increasing(kept)
  {
    if rs == [] then []
    else if Holds(f, rs[0].address) then [rs[0]] + Keep(rs[1..], f)
    else Keep(rs[1..], f)
  }

  /** The pairs of `fs` applied in turn, truthy ones as filters. */
  function Select(rs: seq<Row>, fs: seq<FieldValue>): (sel: seq<Row>)
    ensures forall r :: r in sel <==> r in rs && AllHold(fs, r.address)
    ensures Increasing(rs) ==> Increasing(sel)
  {
    if fs == [] then rs
    else
      var prev := Select(rs, fs[..|fs| - 1]);
      var f := fs[|fs| - 1];
      assert forall a :: AllHold(fs, a) <==> AllHold(fs[..|fs| - 1], a) && AllHold([f], a) by {
        assert fs == fs[..|fs| - 1] + [f];
        forall a ensures AllHold(fs, a) <==> AllHold(fs[..|fs| - 1], a) && AllHold([f], a) {
          AllHoldAppend(fs[..|fs| - 1], [f], a);
        }
      }
      if Truthy(f) then Keep(prev, f) else prev
  }

  /** The services linked to `addressId`. */
  function ServicesOf(services: seq<Service>, addressId: int): (linked: seq<Service>)
    ensures forall s :: s in linked <==> s in services && s.addressId == addressId
    ensures forall s :: multiset(linked)[s] == if s.addressId == addressId then multiset(services)[s] else 0
  {
    if services == [] then []
    else
      assert services == [services[0]] + services[1..];
      if services[0].addressId == addressId then [services[0]] + ServicesOf(services[1..], addressId)
      else ServicesOf(services[1..], addressId)
  }

  // ---------------------------------------------------------------------
  // Uniqueness of stored addresses

  /** A value of the map is what some key maps to. */
  lemma StoredValue(m: map<int, Address>, a: Address)
    ensures a in m.Values <==> exists id :: id in m && m[id] == a
  {
    if exists id :: id in m && m[id] == a {
      var id :| id in m && m[id] == a;
      assert m[id] in m.Values;
    }
  }

  /** Some stored address has exactly these five field values. */
  predicate HasDuplicate(m: map<int, Address>, a: Address)
    ensures HasDuplicate(m, a) <==> a in m.Values
  {
    StoredValue(m, a);
    exists id :: id in m && m[id] == a
  }

  /** No two ids hold equal addresses. */
  predicate Distinct(m: map<int, Address>) {
    forall i, j :: i in m && j in m && m[i] == m[j] ==> i == j
  }

  /** Adding an address no stored one equals keeps the store distinct. */
  lemma InsertKeepsDistinct(m: map<int, Address>, id: int, a: Address)
    requires Distinct(m) && id !in m && !HasDuplicate(m, a)
    ensures Distinct(m[id := a])
  {
  }

  /** Adding an address some stored one equals leaves two equal entries. */
  lemma InsertDuplicateBreaksDistinct(m: map<int, Address>, id: int, a: Address)
    requires id !in m && HasDuplicate(m, a)
    ensures !Distinct(m[id := a])
  {
    var j :| j in m && m[j] == a;
    assert m[id := a][j] == m[id := a][id];
  }

  // ---------------------------------------------------------------------
  // The table

  /** The address table with its id generator, and the service table. */
  class Database {
    var addresses: map<int, Address>
    var nextId: int
    var services: seq<Service>

    /** Every stored id is positive and below the next id to be generated. */
    ghost predicate Valid()
      reads this
    {
      1 <= nextId && forall id :: id in addresses ==> 1 <= id < nextId
    }

    constructor (services: seq<Service>)
      ensures Valid() && addresses == map[] && nextId == 1 && this.services == services
    {
      addresses := map[];
      nextId := 1;
      this.services := services;
    }

    /** `Address.query.all()`: every stored row, in ascending id order. */
    function AllRows(): (rs: seq<Row>)
      reads this
      requires Valid()
      ensures forall r :: r in rs <==> r.id in addresses && addresses[r.id] == r.address
      ensures Increasing(rs)
    {
      Rows(addresses, 1, nextId)
    }

    /** `db.session.add` and `commit`: store `a` under a newly generated id. */
    method Insert(a: Address) returns (id: int)
      requires Valid()
      modifies this
      ensures Valid()
      ensures id == old(nextId) && id !in old(addresses)
      ensures addresses == old(addresses)[id := a] && nextId == id + 1
      ensures services == old(services)
    {
      id := nextId;
      addresses := addresses[id := a];
      nextId := nextId + 1;
    }

    /** `db.session.delete` and `commit`: drop the row with this id. */
    method Remove(id: int)
      requires Valid() && id in addresses
      modifies this`addresses
      ensures Valid()
      ensures addresses == old(addresses) - {id}
    {
      addresses := addresses - {id};
    }
  }

  // ---------------------------------------------------------------------
  // Route handlers

  /** GET `/`: every stored address. */
  method ListAddresses(db: Database, h: Headers) returns (resp: Response)
    requires db.Valid()
    ensures resp.status == 200 && resp.format == (if ShouldReturnXml(h) then Xml else Json)
    ensures resp.body.AddressesBody?
    ensures forall r :: r in resp.body.rows <==> r.id in db.addresses && db.addresses[r.id] == r.address
    ensures Increasing(resp.body.rows)
  {
    var rows := db.AllRows();
    resp := Response(200, if ShouldReturnXml(h) then Xml else Json, AddressesBody(rows));
  }

  /** POST `/`: create an address from the loaded `fields`. `schemaErrors`
      is what schema validation reports on the body (none when it loads). */
  method CreateAddress(db: Database, h: Headers, fields: Address, schemaErrors: seq<string>)
    returns (resp: Response)
    requires db.Valid()
    modifies db
    ensures db.Valid() && db.services == old(db.services)
    // validation failure: 400 with the messages, nothing stored
    ensures schemaErrors != [] ==>
              resp == Response(400, if ShouldReturnXml(h) then Xml else Plain, ErrorBody(schemaErrors)) &&
              db.addresses == old(db.addresses) && db.nextId == old(db.nextId)
    // JSON body equal to a stored address: 400 conflict, nothing stored
    ensures schemaErrors == [] && !IsRequestXml(h) && HasDuplicate(old(db.addresses), fields) ==>
              resp == Response(400, Plain, MessageBody(DuplicateMessage)) &&
              db.addresses == old(db.addresses) && db.nextId == old(db.nextId)
    // otherwise (XML bodies are never checked for duplicates): 201 and one new row
    ensures schemaErrors == [] && (IsRequestXml(h) || !HasDuplicate(old(db.addresses), fields)) ==>
              old(db.nextId) !in old(db.addresses) &&
              db.addresses == old(db.addresses)[old(db.nextId) := fields] &&
              resp == Response(201, if IsRequestXml(h) then Xml else Plain, AddressBody(Row(old(db.nextId), fields)))
    // only the JSON path keeps stored addresses pairwise distinct
    ensures !IsRequestXml(h) && Distinct(old(db.addresses)) ==> Distinct(db.addresses)
  {
    if schemaErrors != [] {
      resp := Response(400, if ShouldReturnXml(h) then Xml else Plain, ErrorBody(schemaErrors));
      return;
    }
    if IsRequestXml(h) {
      var id := db.Insert(fields);
      resp := Response(201, Xml, AddressBody(Row(id, fields)));
    } else {
      if HasDuplicate(db.addresses, fields) {
        resp := Response(400, Plain, MessageBody(DuplicateMessage));
        return;
      }
      ghost var before := db.addresses;
      var id := db.Insert(fields);
      if Distinct(before) {
        InsertKeepsDistinct(before, id, fields);
      }
      resp := Response(201, Plain, AddressBody(Row(id, fields)));
    }
  }

  /** The `setattr` loop of an update: every supplied pair overwrites its
      field, so the result is the field-by-field partial update. */
  method ApplyFields(a: Address, fields: Partial) returns (updated: Address)
    ensures updated == Patch(a, fields)
  {
    var items := Items(fields);
    updated := a;
    var i := 0;
    while i < |items|
      invariant 0 <= i <= |items|
      invariant updated == ApplyAll(a, items[..i])
    {
      updated := SetField(updated, items[i]);
      assert items[..i + 1][..i] == items[..i];
      i := i + 1;
    }
    assert items[..i] == items;
    PatchByItems(a, fields);
  }

  /** PUT `/{id}`: overwrite only the supplied `fields` of the address.
      A JSON body goes through partial schema validation (`schemaErrors`);
      an XML body is applied as parsed, without validation. */
  method UpdateAddress(db: Database, h: Headers, id: int, fields: Partial, schemaErrors: seq<string>)
    returns (resp: Response)
    requires db.Valid()
    modifies db`addresses
    ensures db.Valid()
    // the lookup comes first: a missing id is 404 whatever the body
    ensures id !in old(db.addresses) ==>
              resp == Response(404, Plain, MessageBody(NotFoundMessage)) && db.addresses == old(db.addresses)
    ensures id in old(db.addresses) && !IsRequestXml(h) && schemaErrors != [] ==>
              db.addresses == old(db.addresses) &&
              resp == (if ShouldReturnXml(h) then Response(400, Xml, ErrorBody(schemaErrors))
                       else Response(400, Plain, RawErrors(schemaErrors)))
    ensures id in old(db.addresses) && (IsRequestXml(h) || schemaErrors == []) ==>
              db.addresses == old(db.addresses)[id := Patch(old(db.addresses)[id], fields)] &&
              resp == Response(200, if ShouldReturnXml(h) then Xml else Plain, AddressBody(Row(id, db.addresses[id])))
  {
    if id !in db.addresses {
      resp := Response(404, Plain, MessageBody(NotFoundMessage));
      return;
    }
    if !IsRequestXml(h) && schemaErrors != [] {
      resp := if ShouldReturnXml(h) then Response(400, Xml, ErrorBody(schemaErrors))
              else Response(400, Plain, RawErrors(schemaErrors));
      return;
    }
    var updated := ApplyFields(db.addresses[id], fields);
    db.addresses := db.addresses[id := updated];
    resp := Response(200, if ShouldReturnXml(h) then Xml else Plain, AddressBody(Row(id, updated)));
  }

  /** DELETE `/{id}`: remove the address; its services are left in place. */
  method DeleteAddress(db: Database, id: int) returns (resp: Response)
    requires db.Valid()
    modifies db`addresses
    ensures db.Valid()
    ensures id !in old(db.addresses) ==>
              resp == Response(404, Plain, MessageBody(NotFoundMessage)) && db.addresses == old(db.addresses)
    ensures id in old(db.addresses) ==>
              resp == Response(204, Plain, EmptyBody) && db.addresses == old(db.addresses) - {id}
  {
    if id !in db.addresses {
      resp := Response(404, Plain, MessageBody(NotFoundMessage));
      return;
    }
    db.Remove(id);
    resp := Response(204, Plain, EmptyBody);
  }

  /** GET `/query`: the addresses equal to every supplied truthy argument. */
  method QueryAddresses(db: Database, h: Headers, args: Partial) returns (resp: Response)
    requires db.Valid()
    ensures resp.status == 200 && resp.format == (if ShouldReturnXml(h) then Xml else Json)
    ensures resp.body.AddressesBody?
    ensures forall r :: r in resp.body.rows <==>
              r.id in db.addresses && db.addresses[r.id] == r.address && Matches(args, r.address)
    ensures Increasing(resp.body.rows)
  {
    var items := Items(args);
    var all := db.AllRows();
    var rows := all;
    var i := 0;
    while i < |items|
      invariant 0 <= i <= |items|
      invariant rows == Select(all, items[..i])
    {
      if Truthy(items[i]) {
        rows := Keep(rows, items[i]);
      }
      assert items[..i + 1][..i] == items[..i];
      i := i + 1;
    }
    assert items[..i] == items;
    forall r: Row ensures Matches(args, r.address) <==> AllHold(items, r.address) {
      MatchesByItems(args, r.address);
    }
    resp := Response(200, if ShouldReturnXml(h) then Xml else Json, AddressesBody(rows));
  }

  /** GET `/{addressId}/services`: the services linked to an existing address. */
  method ListServices(db: Database, h: Headers, addressId: int) returns (resp: Response)
    requires db.Valid()
    ensures addressId !in db.addresses ==> resp == Response(404, Plain, MessageBody(NotFoundMessage))
    ensures addressId in db.addresses ==>
              resp.status == 200 && resp.format == (if ShouldReturnXml(h) then Xml else Json) &&
              resp.body.ServicesBody? &&
              (forall s :: s in resp.body.services <==> s in db.services && s.addressId == addressId) &&
              forall s :: multiset(resp.body.services)[s] ==
                           if s.addressId == addressId then multiset(db.services)[s] else 0
  {
    if addressId !in db.addresses {
      resp := Response(404, Plain, MessageBody(NotFoundMessage));
      return;
    }
    resp := Response(200, if ShouldReturnXml(h) then Xml else Json, ServicesBody(ServicesOf(db.services, addressId)));
  }
}
