/** The kid server actions of `src/actions/kids.ts`. Each mutation checks
    its input, then the pin, and only then touches the kid table; a kid is
    never removed, deleting only clears `isActive`. */
module KidActions {
  import opened Collections
  import opened Records
  import opened Pin
  import opened Store

  const NameRequired: string := "Name is required"

  /** `createKid`. */
  method CreateKid(db: Store, adminPin: Option<string>, firstName: string, pin: string) returns (r: Result<Kid>)
    requires db.Valid()
    modifies db
    ensures db.Valid()
    ensures firstName == "" ==> r == Err(Validation(NameRequired)) && unchanged(db)
    ensures firstName != "" && !ValidatePin(adminPin, pin) ==> r == Err(InvalidPin) && unchanged(db)
    ensures firstName != "" && ValidatePin(adminPin, pin) ==>
      && r == Ok(Kid(old(db.nextId), firstName, true))
      && db.kids == old(db.kids) + [r.value]
      && db.nextId == old(db.nextId) + 1
      && db.tasks == old(db.tasks) && db.assignments == old(db.assignments)
      && db.logs == old(db.logs) && db.arrangements == old(db.arrangements)
  {
    if firstName == "" {
      return Err(Validation(NameRequired));
    }
    if !ValidatePin(adminPin, pin) {
      return Err(InvalidPin);
    }
    var id := db.NewId();
    var kid := Kid(id, firstName, true);
    AppendFreshId(db.kids, kid, (k: Kid) => k.id);
    assert KidIds(db.kids + [kid]) == KidIds(db.kids) + {id};
    db.kids := db.kids + [kid];
    r := Ok(kid);
  }

  /** Applying a patch to the kid table keeps the store's integrity. */
  lemma PatchKidKeepsValid(db: Store, id: Id, patch: KidPatch)
    requires db.Valid()
    ensures var kids := PatchKid(db.kids, id, patch);
      && Distinct(Map(kids, (k: Kid) => k.id))
      && (forall i :: 0 <= i < |kids| ==> kids[i].id < db.nextId)
  {
    var kids := PatchKid(db.kids, id, patch);
    forall i | 0 <= i < |kids| ensures kids[i].id == db.kids[i].id {
      assert Map(kids, (k: Kid) => k.id)[i] == Map(db.kids, (k: Kid) => k.id)[i];
    }
  }

  /** `updateKid`: only `firstName` changes. */
  method UpdateKid(db: Store, adminPin: Option<string>, id: Id, firstName: string, pin: string) returns (r: Result<Kid>)
    requires db.Valid()
    modifies db
    ensures db.Valid()
    ensures firstName == "" ==> r == Err(Validation(NameRequired)) && unchanged(db)
    ensures firstName != "" && !ValidatePin(adminPin, pin) ==> r == Err(InvalidPin) && unchanged(db)
    ensures firstName != "" && ValidatePin(adminPin, pin) && id !in KidIds(old(db.kids)) ==>
      r == Err(RecordNotFound) && unchanged(db)
    ensures firstName != "" && ValidatePin(adminPin, pin) && id in KidIds(old(db.kids)) ==>
      && r == Ok(FindKid(old(db.kids), id).value.(firstName := firstName))
      && db.kids == PatchKid(old(db.kids), id, Rename(firstName))
      && db.nextId == old(db.nextId) && db.tasks == old(db.tasks) && db.assignments == old(db.assignments)
      && db.logs == old(db.logs) && db.arrangements == old(db.arrangements)
  {
    if firstName == "" {
      return Err(Validation(NameRequired));
    }
    if !ValidatePin(adminPin, pin) {
      return Err(InvalidPin);
    }
    var found := FindKid(db.kids, id);
    if found.None? {
      return Err(RecordNotFound);
    }
    PatchKidKeepsValid(db, id, Rename(firstName));
    db.kids := PatchKid(db.kids, id, Rename(firstName));
    r := Ok(found.value.(firstName := firstName));
  }

  /** The kid table after `toggleKidActive` on a kid that exists. */
  function ToggledKids(kids: seq<Kid>, id: Id): seq<Kid>
    requires id in KidIds(kids)
  {
    PatchKid(kids, id, SetKidActive(!FindKid(kids, id).value.isActive))
  }

  /** `toggleKidActive`: read the kid, then write the negated flag. */
  method ToggleKidActive(db: Store, adminPin: Option<string>, id: Id, pin: string) returns (r: Result<Kid>)
    requires db.Valid()
    modifies db
    ensures db.Valid()
    ensures !ValidatePin(adminPin, pin) ==> r == Err(InvalidPin) && unchanged(db)
    ensures ValidatePin(adminPin, pin) && id !in KidIds(old(db.kids)) ==> r == Err(KidNotFound) && unchanged(db)
    ensures ValidatePin(adminPin, pin) && id in KidIds(old(db.kids)) ==>
      && r.Ok?
      && r.value.id == id && r.value.firstName == FindKid(old(db.kids), id).value.firstName
      && r.value.isActive == !FindKid(old(db.kids), id).value.isActive
      && db.kids == ToggledKids(old(db.kids), id)
      && db.nextId == old(db.nextId) && db.tasks == old(db.tasks) && db.assignments == old(db.assignments)
      && db.logs == old(db.logs) && db.arrangements == old(db.arrangements)
  {
    if !ValidatePin(adminPin, pin) {
      return Err(InvalidPin);
    }
    var found := FindKid(db.kids, id);
    if found.None? {
      return Err(KidNotFound);
    }
    var kid := found.value;
    PatchKidKeepsValid(db, id, SetKidActive(!kid.isActive));
    db.kids := PatchKid(db.kids, id, SetKidActive(!kid.isActive));
    r := Ok(kid.(isActive := !kid.isActive));
  }

  /** With unique identities a patch by identity touches one position. */
  lemma PatchKidAt(kids: seq<Kid>, i: nat, patch: KidPatch)
    requires i < |kids|
    requires Distinct(Map(kids, (k: Kid) => k.id))
    ensures PatchKid(kids, kids[i].id, patch) == kids[i := ApplyKidPatch(kids[i], patch)]
  {
    var ids := Map(kids, (k: Kid) => k.id);
    forall j | 0 <= j < |kids| && j != i ensures kids[j].id != kids[i].id {
      assert ids[j] == kids[j].id && ids[i] == kids[i].id;
    }
  }

  /** With unique identities, toggling the same kid twice restores the table. */
  lemma ToggleTwiceRestores(kids: seq<Kid>, id: Id)
    requires Distinct(Map(kids, (k: Kid) => k.id))
    requires id in KidIds(kids)
    ensures id in KidIds(ToggledKids(kids, id))
    ensures ToggledKids(ToggledKids(kids, id), id) == kids
  {
    var i :| 0 <= i < |kids| && kids[i].id == id;
    FindKidUnique(kids, i);
    var k := kids[i];
    PatchKidAt(kids, i, SetKidActive(!k.isActive));
    var once := kids[i := k.(isActive := !k.isActive)];
    assert Map(once, (x: Kid) => x.id) == Map(kids, (x: Kid) => x.id);
    FindKidUnique(once, i);
    PatchKidAt(once, i, SetKidActive(k.isActive));
    assert once[i := k] == kids;
  }

  /** `deleteKid`: a soft delete, the record and its history stay. */
  method DeleteKid(db: Store, adminPin: Option<string>, id: Id, pin: string) returns (r: Result<Kid>)
    requires db.Valid()
    modifies db
    ensures db.Valid()
    ensures !ValidatePin(adminPin, pin) ==> r == Err(InvalidPin) && unchanged(db)
    ensures ValidatePin(adminPin, pin) && id !in KidIds(old(db.kids)) ==> r == Err(RecordNotFound) && unchanged(db)
    ensures ValidatePin(adminPin, pin) && id in KidIds(old(db.kids)) ==>
      && r == Ok(FindKid(old(db.kids), id).value.(isActive := false))
      && db.kids == PatchKid(old(db.kids), id, SetKidActive(false))
      && db.nextId == old(db.nextId) && db.tasks == old(db.tasks) && db.assignments == old(db.assignments)
      && db.logs == old(db.logs) && db.arrangements == old(db.arrangements)
  {
    if !ValidatePin(adminPin, pin) {
      return Err(InvalidPin);
    }
    var found := FindKid(db.kids, id);
    if found.None? {
      return Err(RecordNotFound);
    }
    PatchKidKeepsValid(db, id, SetKidActive(false));
    db.kids := PatchKid(db.kids, id, SetKidActive(false));
    r := Ok(found.value.(isActive := false));
  }

  /** Deleting twice is deleting once. */
  lemma {:induction false} DeleteIdempotent(kids: seq<Kid>, id: Id)
    ensures PatchKid(PatchKid(kids, id, SetKidActive(false)), id, SetKidActive(false))
         == PatchKid(kids, id, SetKidActive(false))
  {
    var once := PatchKid(kids, id, SetKidActive(false));
    var twice := PatchKid(once, id, SetKidActive(false));
    forall j | 0 <= j < |kids| ensures twice[j] == once[j] { }
  }

  // ---------------------------------------------------------------------
  // Getters

  /** `orderBy: { firstName: 'asc' }`. */
  predicate NameLe(a: Kid, b: Kid)
  {
    StrLe(a.firstName, b.firstName)
  }

  lemma NameOrderIsTotalPreorder()
    ensures IsTotalPreorder(NameLe)
  {
    forall a: Kid, b: Kid ensures NameLe(a, b) || NameLe(b, a) {
      StrLeTotal(a.firstName, b.firstName);
    }
    forall a: Kid, b: Kid, c: Kid | NameLe(a, b) && NameLe(b, c) ensures NameLe(a, c) {
      StrLeTransitive(a.firstName, b.firstName, c.firstName);
    }
  }

  /** `getKids`: every kid, active or not, sorted by first name. */
  function GetKids(kids: seq<Kid>): (r: seq<Kid>)
    ensures multiset(r) == multiset(kids)
    ensures forall k :: k in r <==> k in kids
    ensures SortedBy(r, NameLe)
  {
    NameOrderIsTotalPreorder();
    SortBySorted(kids, NameLe);
    SortByMembers(kids, NameLe);
    SortBy(kids, NameLe)
  }

  /** `getActiveKids`: exactly the active kids, sorted by first name. */
  function GetActiveKids(kids: seq<Kid>): (r: seq<Kid>)
    ensures multiset(r) == multiset(Filter(kids, (k: Kid) => k.isActive))
    ensures forall k :: k in r <==> k in kids && k.isActive
    ensures SortedBy(r, NameLe)
  {
    FilterMembers(kids, (k: Kid) => k.isActive);
    GetKids(Filter(kids, (k: Kid) => k.isActive))
  }

  /** A deleted kid disappears from the active list but is still listed by
      `getKids`, with the same identity. */
  lemma DeletedKidLeavesActiveList(kids: seq<Kid>, id: Id)
    ensures forall k :: k in GetActiveKids(PatchKid(kids, id, SetKidActive(false))) ==> k.id != id
    ensures KidIds(GetKids(PatchKid(kids, id, SetKidActive(false)))) == KidIds(kids)
  {
    var after := PatchKid(kids, id, SetKidActive(false));
    forall k | k in GetActiveKids(after) ensures k.id != id {
      var j :| 0 <= j < |after| && after[j] == k;
    }
    var sorted := GetKids(after);
    forall x ensures x in KidIds(sorted) <==> x in KidIds(after) {
      if x in KidIds(sorted) {
        var k :| k in sorted && k.id == x;
        assert k in multiset(after);
      }
      if x in KidIds(after) {
        var k :| k in after && k.id == x;
        assert k in multiset(sorted);
      }
    }
  }
}
