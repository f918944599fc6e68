/**
 The catalog of semantic handles: registration, guarded resolution, and its binary record stream.

 Digests, handle derivation, text encodings and path resolution are parameters. Handles are not assumed to be
 free of collisions; what a collision does is part of the model.
 */
module Catalog {
  import opened Bytes
  import opened Ordering
  import opened Wrappers

  const MAX_CATALOG_BYTES := 64 * 1024 * 1024
  const MAX_RECORDS := 1_000_000

  datatype Codec = Codec(sha: Bytes -> string, handle: (string, string, string, string) -> string,
                         utf8: string -> Bytes, unUtf8: Bytes -> Option<string>,
                         ascii: string -> Bytes, unAscii: Bytes -> Option<string>, resolvePath: string -> string)

  predicate IsSha(s: string) {
    |s| == 64 && forall c | c in s :: '0' <= c <= '9' || 'a' <= c <= 'f'
  }

  predicate IsAscii(s: string) {
    forall c | c in s :: c < 128 as char
  }

  /** Digests are SHA-256 texts, handles are ASCII, and each encoding gives back the texts it can hold. */
  ghost predicate Lawful(k: Codec) {
    && (forall s :: k.unUtf8(k.utf8(s)) == Some(s))
    && (forall s | IsAscii(s) :: k.unAscii(k.ascii(s)) == Some(s))
    && (forall b :: IsSha(k.sha(b)))
    && (forall r, g, n, i :: IsAscii(k.handle(r, g, n, i)))
    && (forall p :: k.resolvePath(k.resolvePath(p)) == k.resolvePath(p))
  }

  predicate IsNamespace(s: string) {
    s in {"file", "symbol", "relation", "span", "test", "plan", "precedent", "receipt", "skill"}
  }

  predicate IsState(s: string) {
    s in {"active", "superseded", "tombstoned", "held"}
  }

  datatype CatalogError =
    | GenerationEmpty | NamespaceUnsupported | ShaInvalid | SegmentEmpty | StateUnsupported
    | CanonicalIdReuse | HandleCollision
    | HandleNotFound | CrossRepository | StaleGeneration | NamespaceMismatch | NotActive(state: string)
    | PayloadDigestMismatch | PayloadCorrupt | BudgetInvalid
    | MetadataTooLong | RecordTooLarge | PackError
    | SizeUnsupported | Truncated | MagicInvalid | RecordLimit | TextInvalid | ScopeMismatch
    | HandleDigestMismatch | CatalogDigestMismatch | TrailingBytes

  datatype Entry = Entry(namespace: string, canonicalId: string, handle: string, repository: string, generation: string,
                         segment: string, payload: Bytes, payloadSha: string, sourceSha: string, state: string)

  type Identity = (string, string)

  datatype Catalog = Catalog(repository: string, generation: string, byHandle: map<string, Entry>,
                             byIdentity: map<Identity, Entry>)

  // ---------- Registration ----------

  datatype Registration = Registration(namespace: string, canonicalId: string, payload: Bytes, sourceSha: string,
                                       segment: string, state: string)

  function Check(r: Registration): Outcome<CatalogError> {
    if !IsNamespace(r.namespace) then Fail(NamespaceUnsupported)
    else if !IsSha(r.canonicalId) || !IsSha(r.sourceSha) then Fail(ShaInvalid)
    else if r.segment == "" then Fail(SegmentEmpty)
    else if !IsState(r.state) then Fail(StateUnsupported)
    else Pass
  }

  function IdentityOf(e: Entry): Identity {
    (e.namespace, e.canonicalId)
  }

  function HandleFor(k: Codec, cat: Catalog, namespace: string, canonicalId: string): string {
    k.handle(cat.repository, cat.generation, namespace, canonicalId)
  }

  function EntryFor(k: Codec, cat: Catalog, r: Registration): Entry {
    Entry(r.namespace, r.canonicalId, HandleFor(k, cat, r.namespace, r.canonicalId), cat.repository, cat.generation,
          r.segment, r.payload, k.sha(r.payload), r.sourceSha, r.state)
  }

  function AddEntry(cat: Catalog, e: Entry): Catalog {
    cat.(byHandle := cat.byHandle[e.handle := e], byIdentity := cat.byIdentity[IdentityOf(e) := e])
  }

  /** `register`: the first registration of an identity stands; a later one must agree on payload and source. */
  function AfterRegister(k: Codec, cat: Catalog, r: Registration): Result<Catalog, CatalogError> {
    var checked := Check(r);
    :- checked;
    var identity := (r.namespace, r.canonicalId);
    if identity in cat.byIdentity then
      var existing := cat.byIdentity[identity];
      if existing.payloadSha != k.sha(r.payload) || existing.sourceSha != r.sourceSha then Failure(CanonicalIdReuse)
      else Success(cat)
    else
      var e := EntryFor(k, cat, r);
      if e.handle in cat.byHandle && cat.byHandle[e.handle].canonicalId != r.canonicalId then Failure(HandleCollision)
      else Success(AddEntry(cat, e))
  }

  function RegistrationOf(e: Entry): Registration {
    Registration(e.namespace, e.canonicalId, e.payload, e.sourceSha, e.segment, e.state)
  }

  predicate EntryOk(k: Codec, cat: Catalog, e: Entry) {
    Check(RegistrationOf(e)).Pass? && e == EntryFor(k, cat, RegistrationOf(e))
  }

  /** Every entry under a handle is also the one under its identity; an identity's handle may mean another entry. */
  ghost predicate WeakInv(k: Codec, cat: Catalog) {
    && (forall h | h in cat.byHandle :: HandleOk(k, cat, h))
    && (forall i | i in cat.byIdentity :: IdentityOk(k, cat, i))
  }

  predicate HandleOk(k: Codec, cat: Catalog, h: string)
    requires h in cat.byHandle
  {
    var e := cat.byHandle[h];
    EntryOk(k, cat, e) && e.handle == h && IdentityOf(e) in cat.byIdentity && cat.byIdentity[IdentityOf(e)] == e
  }

  predicate IdentityOk(k: Codec, cat: Catalog, i: Identity)
    requires i in cat.byIdentity
  {
    var e := cat.byIdentity[i];
    EntryOk(k, cat, e) && IdentityOf(e) == i && e.handle in cat.byHandle
  }

  predicate Owns(cat: Catalog, e: Entry) {
    e.handle in cat.byHandle && cat.byHandle[e.handle] == e
  }

  /** No entry has lost its handle to another one. */
  ghost predicate Unshadowed(cat: Catalog) {
    forall i | i in cat.byIdentity :: Owns(cat, cat.byIdentity[i])
  }

  /** Both maps hold the same well-formed entries, one under its handle and the other under its identity. */
  ghost predicate Inv(k: Codec, cat: Catalog) {
    WeakInv(k, cat) && Unshadowed(cat)
  }

  lemma HandleAfterPut(k: Codec, cat: Catalog, e: Entry, h: string)
    requires EntryOk(k, cat, e)
    requires h != e.handle ==> h in cat.byHandle && HandleOk(k, cat, h) && IdentityOf(cat.byHandle[h]) != IdentityOf(e)
    ensures HandleOk(k, AddEntry(cat, e), h)
  {
    hide EntryOk, IdentityOf;
    ScopeOnly(k, cat, AddEntry(cat, e));
  }

  lemma IdentityAfterPut(k: Codec, cat: Catalog, e: Entry, i: Identity)
    requires EntryOk(k, cat, e) && (i != IdentityOf(e) ==> i in cat.byIdentity && IdentityOk(k, cat, i))
    ensures IdentityOk(k, AddEntry(cat, e), i)
  {
    hide EntryOk, IdentityOf;
    ScopeOnly(k, cat, AddEntry(cat, e));
  }

  /** An entry is put under its handle and its identity, which no other handle's entry has. */
  lemma PutKeepsWeakInv(k: Codec, cat: Catalog, e: Entry)
    requires WeakInv(k, cat) && EntryOk(k, cat, e)
    requires forall h | h in cat.byHandle && h != e.handle :: IdentityOf(cat.byHandle[h]) != IdentityOf(e)
    ensures WeakInv(k, AddEntry(cat, e))
  {
    hide EntryOk, IdentityOf, HandleOk, IdentityOk;
    var after := AddEntry(cat, e);
    forall h | h in after.byHandle ensures HandleOk(k, after, h) {
      HandleAfterPut(k, cat, e, h);
    }
    forall i | i in after.byIdentity ensures IdentityOk(k, after, i) {
      IdentityAfterPut(k, cat, e, i);
    }
  }

  /** The entry takes nobody else's handle. */
  lemma PutKeepsOwners(k: Codec, cat: Catalog, e: Entry)
    requires Inv(k, cat) && (e.handle in cat.byHandle ==> IdentityOf(cat.byHandle[e.handle]) == IdentityOf(e))
    ensures Unshadowed(AddEntry(cat, e))
  {
    hide EntryOk, IdentityOf, HandleOk;
    var after := AddEntry(cat, e);
    forall i | i in after.byIdentity ensures Owns(after, after.byIdentity[i]) {
      if i != IdentityOf(e) {
        assert IdentityOk(k, cat, i) && Owns(cat, cat.byIdentity[i]);
      }
    }
  }

  /**
   The collision that `register` does not notice: the handle is taken by the same canonical id in another
   namespace, because only the canonical ids are compared.
   */
  predicate Shadows(k: Codec, cat: Catalog, r: Registration) {
    && (r.namespace, r.canonicalId) !in cat.byIdentity
    && var h := HandleFor(k, cat, r.namespace, r.canonicalId);
       h in cat.byHandle && cat.byHandle[h].canonicalId == r.canonicalId
  }

  /** A successful registration keeps the two maps in step if and only if it does not shadow a handle. */
  lemma RegisterKeepsInvIff(k: Codec, cat: Catalog, r: Registration)
    requires Inv(k, cat) && AfterRegister(k, cat, r).Success?
    ensures Inv(k, AfterRegister(k, cat, r).value) <==> !Shadows(k, cat, r)
  {
    hide IsNamespace, IsSha, IsState;
    var after := AfterRegister(k, cat, r).value;
    if Shadows(k, cat, r) {
      var shadowed := cat.byHandle[HandleFor(k, cat, r.namespace, r.canonicalId)];
      assert after.byIdentity[IdentityOf(shadowed)] == shadowed && after.byHandle[shadowed.handle] != shadowed;
    } else if (r.namespace, r.canonicalId) !in cat.byIdentity {
      InsertKeepsInv(k, cat, EntryFor(k, cat, r));
    }
  }

  lemma InsertKeepsInv(k: Codec, cat: Catalog, e: Entry)
    requires Inv(k, cat) && EntryOk(k, cat, e) && e.handle !in cat.byHandle && IdentityOf(e) !in cat.byIdentity
    ensures Inv(k, AddEntry(cat, e))
  {
    hide EntryOk, IdentityOf, IdentityOk, Unshadowed, AddEntry;
    forall h | h in cat.byHandle ensures IdentityOf(cat.byHandle[h]) != IdentityOf(e) {
      assert HandleOk(k, cat, h);
    }
    PutKeepsWeakInv(k, cat, e);
    PutKeepsOwners(k, cat, e);
  }

  /**
   What `register` decides about a well-formed registration: an identity that is held is confirmed exactly when
   payload digest and source are those it was registered with, a new one is refused exactly when its handle is held
   by another canonical id, and otherwise it is held under handle and identity and nothing else changes.
   */
  lemma RegisterDecides(k: Codec, cat: Catalog, r: Registration)
    requires Check(r).Pass?
    ensures var i, result := (r.namespace, r.canonicalId), AfterRegister(k, cat, r);
            i in cat.byIdentity ==>
              var held := cat.byIdentity[i];
              result == if held.payloadSha == k.sha(r.payload) && held.sourceSha == r.sourceSha then Success(cat)
                        else Failure(CanonicalIdReuse)
    ensures var i, result := (r.namespace, r.canonicalId), AfterRegister(k, cat, r);
            var h := k.handle(cat.repository, cat.generation, r.namespace, r.canonicalId);
            var e := Entry(r.namespace, r.canonicalId, h, cat.repository, cat.generation, r.segment, r.payload,
                           k.sha(r.payload), r.sourceSha, r.state);
            var taken := h in cat.byHandle && cat.byHandle[h].canonicalId != r.canonicalId;
            i !in cat.byIdentity ==>
              result == if taken then Failure(HandleCollision)
                        else Success(cat.(byHandle := cat.byHandle[h := e], byIdentity := cat.byIdentity[i := e]))
  {
    hide Check;
  }

  /** Two registrations of different identities and handles commute. */
  lemma RegisterCommutes(k: Codec, cat: Catalog, a: Registration, b: Registration)
    requires (a.namespace, a.canonicalId) != (b.namespace, b.canonicalId)
    requires HandleFor(k, cat, a.namespace, a.canonicalId) != HandleFor(k, cat, b.namespace, b.canonicalId)
    requires AfterRegister(k, cat, a).Success? && AfterRegister(k, AfterRegister(k, cat, a).value, b).Success?
    ensures AfterRegister(k, cat, b).Success?
    ensures AfterRegister(k, AfterRegister(k, cat, b).value, a) == AfterRegister(k, AfterRegister(k, cat, a).value, b)
  {
    hide Check;
    var ea, eb := EntryFor(k, cat, a), EntryFor(k, cat, b);
    assert cat.byHandle[ea.handle := ea][eb.handle := eb] == cat.byHandle[eb.handle := eb][ea.handle := ea];
    assert cat.byIdentity[IdentityOf(ea) := ea][IdentityOf(eb) := eb]
           == cat.byIdentity[IdentityOf(eb) := eb][IdentityOf(ea) := ea];
  }

  /**
   Registering an identity again changes nothing, whatever segment and state it now names. What `register`
   returns has the requested segment and state exactly when the identity is new or was registered with them.
   */
  lemma FirstRegistrationStands(k: Codec, cat: Catalog, r: Registration, segment: string, state: string)
    requires AfterRegister(k, cat, r).Success? && Check(r.(segment := segment, state := state)).Pass?
    ensures var after, i := AfterRegister(k, cat, r).value, (r.namespace, r.canonicalId);
            && AfterRegister(k, after, r.(segment := segment, state := state)) == Success(after)
            && i in after.byIdentity
            && (after.byIdentity[i].segment == r.segment && after.byIdentity[i].state == r.state
                <==> (i in cat.byIdentity ==>
                        cat.byIdentity[i].segment == r.segment && cat.byIdentity[i].state == r.state))
  {
    hide IsNamespace, IsSha, IsState;
  }

  /**
   The collision in full: a codec gives an id in two namespaces one handle. Both registrations succeed, the
   first one's handle then resolves to the second one's entry, and the two maps are out of step.
   */
  lemma ShadowedRegistration(k: Codec, repository: string, generation: string, id: string, source: string,
                             segment: string, first: Bytes, second: Bytes)
    requires IsSha(id) && IsSha(source) && segment != ""
    requires k.handle(repository, generation, "file", id) == k.handle(repository, generation, "symbol", id)
    ensures var a, b := Registration("file", id, first, source, segment, "active"),
                        Registration("symbol", id, second, source, segment, "active");
            var one := AfterRegister(k, EmptyCatalog(repository, generation), a);
            && one.Success? && Inv(k, one.value) && Shadows(k, one.value, b)
            && var two := AfterRegister(k, one.value, b);
               && two.Success? && !Inv(k, two.value)
               && var h := HandleFor(k, two.value, "file", id);
                  h in two.value.byHandle && two.value.byHandle[h].namespace == "symbol"
  {
    hide IsSha;
    var cat := EmptyCatalog(repository, generation);
    var a, b := Registration("file", id, first, source, segment, "active"),
                Registration("symbol", id, second, source, segment, "active");
    NamesDiffer();
    assert Check(a).Pass? && Check(b).Pass?;
    InsertKeepsInv(k, cat, EntryFor(k, cat, a));
    RegisterKeepsInvIff(k, AfterRegister(k, cat, a).value, b);
  }

  lemma NamesDiffer()
    ensures "file" != "symbol" && IsNamespace("file") && IsNamespace("symbol") && IsState("active")
  {
    assert |"file"| == 4 && |"symbol"| == 6;
  }

  // ---------- Lists of registrations ----------

  function RegisterAll(k: Codec, cat: Catalog, list: seq<Registration>): Result<Catalog, CatalogError>
    decreases |list|
  {
    if list == [] then Success(cat)
    else
      var next :- AfterRegister(k, cat, list[0]);
      RegisterAll(k, next, list[1..])
  }

  predicate Apart(k: Codec, cat: Catalog, a: Registration, b: Registration) {
    (a.namespace, a.canonicalId) != (b.namespace, b.canonicalId)
    && HandleFor(k, cat, a.namespace, a.canonicalId) != HandleFor(k, cat, b.namespace, b.canonicalId)
  }

  /** No two of the registrations share an identity or a handle. */
  ghost predicate AllApart(k: Codec, cat: Catalog, list: seq<Registration>) {
    forall i, j | 0 <= i < j < |list| :: Apart(k, cat, list[i], list[j])
  }

  predicate IsNew(k: Codec, cat: Catalog, r: Registration) {
    (r.namespace, r.canonicalId) !in cat.byIdentity && HandleFor(k, cat, r.namespace, r.canonicalId) !in cat.byHandle
  }

  predicate Holds(k: Codec, cat: Catalog, r: Registration) {
    var e := EntryFor(k, cat, r);
    && e.handle in cat.byHandle && cat.byHandle[e.handle] == e
    && IdentityOf(e) in cat.byIdentity && cat.byIdentity[IdentityOf(e)] == e
  }

  lemma InsertEffect(k: Codec, cat: Catalog, a: Registration, b: Registration)
    requires Apart(k, cat, a, b)
    ensures IsNew(k, cat, b) ==> IsNew(k, AddEntry(cat, EntryFor(k, cat, a)), b)
    ensures Holds(k, cat, b) ==> Holds(k, AddEntry(cat, EntryFor(k, cat, a)), b)
    ensures Holds(k, AddEntry(cat, EntryFor(k, cat, a)), a)
    ensures Apart(k, AddEntry(cat, EntryFor(k, cat, a)), a, b)
  {
  }

  lemma RegisterNew(k: Codec, cat: Catalog, r: Registration)
    requires IsNew(k, cat, r)
    ensures AfterRegister(k, cat, r).Success? <==> Check(r).Pass?
    ensures AfterRegister(k, cat, r).Success? ==> AfterRegister(k, cat, r).value == AddEntry(cat, EntryFor(k, cat, r))
  {
    hide Check;
  }

  /** The tail of the list is in the same position after its head is registered. */
  lemma RestIsNew(k: Codec, cat: Catalog, list: seq<Registration>)
    requires list != [] && AllApart(k, cat, list) && forall r | r in list :: IsNew(k, cat, r)
    ensures var next := AddEntry(cat, EntryFor(k, cat, list[0]));
            AllApart(k, next, list[1..]) && forall r | r in list[1..] :: IsNew(k, next, r)
  {
    var next := AddEntry(cat, EntryFor(k, cat, list[0]));
    forall i, j | 0 <= i < j < |list[1..]| ensures Apart(k, next, list[1..][i], list[1..][j]) {
      assert Apart(k, cat, list[i + 1], list[j + 1]);
    }
    forall r | r in list[1..] ensures IsNew(k, next, r) {
      var j :| 0 < j < |list| && list[j] == r;
      assert Apart(k, cat, list[0], list[j]);
      InsertEffect(k, cat, list[0], r);
    }
  }

  lemma {:induction false} RegisterAllKeeps(k: Codec, cat: Catalog, list: seq<Registration>, b: Registration)
    requires AllApart(k, cat, list) && forall r | r in list :: IsNew(k, cat, r)
    requires Holds(k, cat, b) && forall r | r in list :: Apart(k, cat, r, b)
    requires RegisterAll(k, cat, list).Success?
    ensures Holds(k, RegisterAll(k, cat, list).value, b)
    decreases |list|
  {
    if list != [] {
      RestIsNew(k, cat, list);
      RegisterNew(k, cat, list[0]);
      InsertEffect(k, cat, list[0], b);
      var next := AddEntry(cat, EntryFor(k, cat, list[0]));
      forall r | r in list[1..] ensures Apart(k, next, r, b) {
        assert Apart(k, cat, r, b);
      }
      RegisterAllKeeps(k, next, list[1..], b);
    }
  }

  /** Registering apart registrations succeeds exactly when each is well-formed, and then holds them all. */
  lemma {:induction false} RegisterAllMeans(k: Codec, cat: Catalog, list: seq<Registration>)
    requires AllApart(k, cat, list) && forall r | r in list :: IsNew(k, cat, r)
    ensures var result := RegisterAll(k, cat, list);
            && (result.Success? <==> forall r | r in list :: Check(r).Pass?)
            && (result.Success? ==> SameScope(cat, result.value) && forall r | r in list :: Holds(k, result.value, r))
    decreases |list|
  {
    hide AfterRegister, AddEntry, EntryFor, IsNamespace;
    if list != [] {
      RestIsNew(k, cat, list);
      RegisterNew(k, cat, list[0]);
      InsertEffectSelf(k, cat, list[0]);
      var next := AddEntry(cat, EntryFor(k, cat, list[0]));
      forall r | r in list[1..] ensures Apart(k, next, r, list[0]) {
        var j :| 0 < j < |list| && list[j] == r;
        assert Apart(k, cat, list[0], list[j]);
      }
      assert list == [list[0]] + list[1..];
      RegisterAllMeans(k, next, list[1..]);
      if RegisterAll(k, next, list[1..]).Success? {
        RegisterAllKeeps(k, next, list[1..], list[0]);
      }
    }
  }

  predicate SameScope(a: Catalog, b: Catalog) {
    a.repository == b.repository && a.generation == b.generation
  }

  lemma InsertEffectSelf(k: Codec, cat: Catalog, a: Registration)
    ensures Holds(k, AddEntry(cat, EntryFor(k, cat, a)), a) && SameScope(cat, AddEntry(cat, EntryFor(k, cat, a)))
  {
  }

  lemma RegisterAdds(k: Codec, cat: Catalog, r: Registration)
    requires AfterRegister(k, cat, r).Success?
    ensures var after, e := AfterRegister(k, cat, r).value, EntryFor(k, cat, r);
            && SameScope(cat, after)
            && after.byHandle.Keys <= cat.byHandle.Keys + {e.handle}
            && after.byIdentity.Keys <= cat.byIdentity.Keys + {IdentityOf(e)}
  {
    hide Check;
  }

  lemma {:induction false} RegisterAllAdds(k: Codec, cat: Catalog, list: seq<Registration>)
    requires RegisterAll(k, cat, list).Success?
    ensures var after := RegisterAll(k, cat, list).value;
            && (forall h | h in after.byHandle :: h in cat.byHandle || FromList(k, cat, list, h))
            && (forall i | i in after.byIdentity :: i in cat.byIdentity || IdentityFromList(k, cat, list, i))
    decreases |list|
  {
    hide AfterRegister;
    if list != [] {
      var next := AfterRegister(k, cat, list[0]).value;
      RegisterAdds(k, cat, list[0]);
      assert forall r :: EntryFor(k, next, r) == EntryFor(k, cat, r);
      assert list == [list[0]] + list[1..];
      RegisterAllAdds(k, next, list[1..]);
    }
  }

  function EmptyCatalog(repository: string, generation: string): Catalog {
    Catalog(repository, generation, map[], map[])
  }

  /** A catalog does not depend on the order in which apart registrations arrive. */
  lemma RegistrationOrderIsIrrelevant(k: Codec, repository: string, generation: string,
                                      a: seq<Registration>, b: seq<Registration>)
    requires var cat := EmptyCatalog(repository, generation); AllApart(k, cat, a) && AllApart(k, cat, b)
    requires forall r :: r in a <==> r in b
    ensures var cat := EmptyCatalog(repository, generation);
            && (RegisterAll(k, cat, a).Success? <==> RegisterAll(k, cat, b).Success?)
            && (RegisterAll(k, cat, a).Success? ==> RegisterAll(k, cat, a).value == RegisterAll(k, cat, b).value)
  {
    hide RegisterAll, Check, AllApart, EntryFor, IdentityOf;
    var cat := EmptyCatalog(repository, generation);
    RegisterAllMeans(k, cat, a);
    RegisterAllMeans(k, cat, b);
    if RegisterAll(k, cat, a).Success? {
      RegisterAllAdds(k, cat, a);
      RegisterAllAdds(k, cat, b);
      SameEntries(k, cat, a, RegisterAll(k, cat, a).value, RegisterAll(k, cat, b).value);
    }
  }

  ghost predicate FromList(k: Codec, cat: Catalog, list: seq<Registration>, h: string) {
    exists r | r in list :: EntryFor(k, cat, r).handle == h
  }

  ghost predicate IdentityFromList(k: Codec, cat: Catalog, list: seq<Registration>, i: Identity) {
    exists r | r in list :: IdentityOf(EntryFor(k, cat, r)) == i
  }

  lemma SameEntries(k: Codec, cat: Catalog, list: seq<Registration>, x: Catalog, y: Catalog)
    requires SameScope(cat, x) && SameScope(cat, y)
    requires forall r | r in list :: Holds(k, x, r) && Holds(k, y, r)
    requires forall h | h in x.byHandle || h in y.byHandle :: FromList(k, cat, list, h)
    requires forall i | i in x.byIdentity || i in y.byIdentity :: IdentityFromList(k, cat, list, i)
    ensures x == y
  {
    hide FromList, IdentityFromList, Holds, EntryFor, IdentityOf;
    forall h | h in x.byHandle || h in y.byHandle
      ensures h in x.byHandle && h in y.byHandle && x.byHandle[h] == y.byHandle[h]
    {
      SameUnderHandle(k, cat, list, x, y, h);
    }
    forall i | i in x.byIdentity || i in y.byIdentity
      ensures i in x.byIdentity && i in y.byIdentity && x.byIdentity[i] == y.byIdentity[i]
    {
      SameUnderIdentity(k, cat, list, x, y, i);
    }
    assert x.byHandle == y.byHandle && x.byIdentity == y.byIdentity;
  }

  lemma SameUnderHandle(k: Codec, cat: Catalog, list: seq<Registration>, x: Catalog, y: Catalog, h: string)
    requires SameScope(cat, x) && SameScope(cat, y) && FromList(k, cat, list, h)
    requires forall r | r in list :: Holds(k, x, r) && Holds(k, y, r)
    ensures h in x.byHandle && h in y.byHandle && x.byHandle[h] == y.byHandle[h]
  {
    var r :| r in list && EntryFor(k, cat, r).handle == h;
    assert Holds(k, x, r) && Holds(k, y, r);
  }

  lemma SameUnderIdentity(k: Codec, cat: Catalog, list: seq<Registration>, x: Catalog, y: Catalog, i: Identity)
    requires SameScope(cat, x) && SameScope(cat, y) && IdentityFromList(k, cat, list, i)
    requires forall r | r in list :: Holds(k, x, r) && Holds(k, y, r)
    ensures i in x.byIdentity && i in y.byIdentity && x.byIdentity[i] == y.byIdentity[i]
  {
    var r :| r in list && IdentityOf(EntryFor(k, cat, r)) == i;
    assert Holds(k, x, r) && Holds(k, y, r);
  }

  // ---------- Resolution and tombstones ----------

  datatype Guards = Guards(repository: Option<string>, generation: Option<string>, namespace: Option<string>,
                           payloadSha: Option<string>)

  /** `resolve`. */
  function Resolution(k: Codec, cat: Catalog, handle: string, g: Guards): Result<Entry, CatalogError> {
    if handle !in cat.byHandle then Failure(HandleNotFound)
    else
      var e := cat.byHandle[handle];
      if g.repository.Some? && k.resolvePath(g.repository.value) != e.repository then Failure(CrossRepository)
      else if g.generation.Some? && g.generation.value != e.generation then Failure(StaleGeneration)
      else if g.namespace.Some? && g.namespace.value != e.namespace then Failure(NamespaceMismatch)
      else if e.state != "active" then Failure(NotActive(e.state))
      else if g.payloadSha.Some? && g.payloadSha.value != e.payloadSha then Failure(PayloadDigestMismatch)
      else if k.sha(e.payload) != e.payloadSha then Failure(PayloadCorrupt)
      else Success(e)
  }

  /** In a consistent catalog a handle resolves exactly to its own active entry, when every guard given agrees. */
  lemma ResolvesIff(k: Codec, cat: Catalog, handle: string, g: Guards, e: Entry)
    requires Inv(k, cat)
    ensures Resolution(k, cat, handle, g) == Success(e)
            <==> && IdentityOf(e) in cat.byIdentity && cat.byIdentity[IdentityOf(e)] == e && e.handle == handle
                 && e.state == "active"
                 && (g.repository.Some? ==> k.resolvePath(g.repository.value) == cat.repository)
                 && (g.generation.Some? ==> g.generation.value == cat.generation)
                 && (g.namespace.Some? ==> g.namespace.value == e.namespace)
                 && (g.payloadSha.Some? ==> g.payloadSha.value == k.sha(e.payload))
  {
    hide Check;
  }

  /** `tombstone`. */
  function AfterTombstone(cat: Catalog, handle: string, state: string): Result<Catalog, CatalogError> {
    if state !in {"superseded", "tombstoned", "held"} then Failure(StateUnsupported)
    else if handle !in cat.byHandle then Failure(HandleNotFound)
    else
      var replacement := cat.byHandle[handle].(state := state);
      Success(cat.(byHandle := cat.byHandle[handle := replacement],
                   byIdentity := cat.byIdentity[IdentityOf(replacement) := replacement]))
  }

  lemma TombstoneKeepsWeakInv(k: Codec, cat: Catalog, handle: string, state: string)
    requires WeakInv(k, cat) && AfterTombstone(cat, handle, state).Success?
    ensures WeakInv(k, AfterTombstone(cat, handle, state).value)
  {
    var e := cat.byHandle[handle].(state := state);
    assert HandleOk(k, cat, handle);
    RestatedIsOk(k, cat, cat.byHandle[handle], state);
    forall h | h in cat.byHandle && h != e.handle ensures IdentityOf(cat.byHandle[h]) != IdentityOf(e) {
      assert HandleOk(k, cat, h);
    }
    PutKeepsWeakInv(k, cat, e);
  }

  lemma TombstoneKeepsInv(k: Codec, cat: Catalog, handle: string, state: string)
    requires Inv(k, cat) && AfterTombstone(cat, handle, state).Success?
    ensures Inv(k, AfterTombstone(cat, handle, state).value)
  {
    TombstoneKeepsWeakInv(k, cat, handle, state);
    assert HandleOk(k, cat, handle);
    PutKeepsOwners(k, cat, cat.byHandle[handle].(state := state));
  }

  lemma RestatedIsOk(k: Codec, cat: Catalog, e: Entry, state: string)
    requires EntryOk(k, cat, e) && state in {"superseded", "tombstoned", "held"}
    ensures EntryOk(k, cat, e.(state := state))
  {
    hide IsNamespace, IsSha;
  }

  lemma ScopeOnly(k: Codec, cat: Catalog, after: Catalog)
    requires SameScope(cat, after)
    ensures forall e :: EntryOk(k, cat, e) <==> EntryOk(k, after, e)
  {
    hide Check;
  }

  // ---------- Whole runs ----------

  datatype Operation = Register(r: Registration) | Tombstone(handle: string, state: string)

  /** One call; a call that raises changes nothing. */
  function Step(k: Codec, cat: Catalog, op: Operation): Catalog {
    var next := match op
                case Register(r) => AfterRegister(k, cat, r)
                case Tombstone(h, state) => AfterTombstone(cat, h, state);
    if next.Success? then next.value else cat
  }

  function Run(k: Codec, cat: Catalog, ops: seq<Operation>): Catalog
    decreases |ops|
  {
    if ops == [] then cat else Run(k, Step(k, cat, ops[0]), ops[1..])
  }

  /** No registration of the run shadows a handle. */
  predicate NothingShadowed(k: Codec, cat: Catalog, ops: seq<Operation>)
    decreases |ops|
  {
    ops == []
    || ((ops[0].Register? ==> !Shadows(k, cat, ops[0].r)) && NothingShadowed(k, Step(k, cat, ops[0]), ops[1..]))
  }

  /** The entry of a handle keeps all but its state, and never becomes active again. */
  predicate Settled(before: Entry, after: Entry) {
    after == before.(state := after.state) && (before.state != "active" ==> after.state != "active")
  }

  lemma StepSettles(k: Codec, cat: Catalog, op: Operation, h: string)
    requires Inv(k, cat) && h in cat.byHandle && (op.Register? ==> !Shadows(k, cat, op.r))
    ensures Inv(k, Step(k, cat, op))
    ensures h in Step(k, cat, op).byHandle && Settled(cat.byHandle[h], Step(k, cat, op).byHandle[h])
  {
    hide Inv;
    match op {
      case Register(r) =>
        if AfterRegister(k, cat, r).Success? {
          RegisterKeepsInvIff(k, cat, r);
        }
      case Tombstone(x, state) =>
        if AfterTombstone(cat, x, state).Success? {
          TombstoneKeepsInv(k, cat, x, state);
        }
    }
  }

  /**
   In every run without shadowing the catalog stays consistent, a handle keeps meaning the same entry, and once
   it is not active it is never active again, whatever is registered afterwards.
   */
  lemma {:induction false} NeverRevived(k: Codec, cat: Catalog, ops: seq<Operation>, h: string)
    requires Inv(k, cat) && NothingShadowed(k, cat, ops) && h in cat.byHandle
    ensures Inv(k, Run(k, cat, ops))
    ensures h in Run(k, cat, ops).byHandle
    ensures var before, after := cat.byHandle[h], Run(k, cat, ops).byHandle[h];
            after == before.(state := after.state) && (before.state != "active" ==> after.state != "active")
    decreases |ops|
  {
    hide Inv, Step, Shadows;
    if ops != [] {
      StepSettles(k, cat, ops[0], h);
      NeverRevived(k, Step(k, cat, ops[0]), ops[1..], h);
    }
  }

  // ---------- What every run keeps, shadowing or not ----------

  lemma RegisterKeepsWeakInv(k: Codec, cat: Catalog, r: Registration)
    requires WeakInv(k, cat) && AfterRegister(k, cat, r).Success?
    ensures WeakInv(k, AfterRegister(k, cat, r).value)
  {
    hide Check;
    if (r.namespace, r.canonicalId) !in cat.byIdentity {
      var e := EntryFor(k, cat, r);
      forall h | h in cat.byHandle ensures IdentityOf(cat.byHandle[h]) != IdentityOf(e) {
        assert HandleOk(k, cat, h);
      }
      PutKeepsWeakInv(k, cat, e);
    }
  }

  lemma StepKeepsWeakInv(k: Codec, cat: Catalog, op: Operation)
    requires WeakInv(k, cat)
    ensures WeakInv(k, Step(k, cat, op)) && SameScope(cat, Step(k, cat, op))
  {
    hide WeakInv, Check;
    match op {
      case Register(r) =>
        if AfterRegister(k, cat, r).Success? {
          RegisterKeepsWeakInv(k, cat, r);
        }
      case Tombstone(h, state) =>
        if AfterTombstone(cat, h, state).Success? {
          TombstoneKeepsWeakInv(k, cat, h, state);
        }
    }
  }

  /** Every run, with any registrations and handles, keeps the weaker invariant and the scope. */
  lemma {:induction false} RunKeepsWeakInv(k: Codec, cat: Catalog, ops: seq<Operation>)
    requires WeakInv(k, cat)
    ensures WeakInv(k, Run(k, cat, ops)) && SameScope(cat, Run(k, cat, ops))
    decreases |ops|
  {
    hide WeakInv, Step;
    if ops != [] {
      StepKeepsWeakInv(k, cat, ops[0]);
      RunKeepsWeakInv(k, Step(k, cat, ops[0]), ops[1..]);
    }
  }

  /** Everything but the state. */
  predicate SameContent(a: Entry, b: Entry) {
    a.(state := b.state) == b
  }

  lemma StepKeepsContent(k: Codec, cat: Catalog, op: Operation, i: Identity)
    requires WeakInv(k, cat) && i in cat.byIdentity
    ensures i in Step(k, cat, op).byIdentity && SameContent(cat.byIdentity[i], Step(k, cat, op).byIdentity[i])
  {
    hide Check, EntryOk, IdentityOk;
    match op {
      case Register(r) =>
      case Tombstone(h, state) =>
        if h in cat.byHandle {
          assert HandleOk(k, cat, h);
        }
    }
  }

  /**
   In every run, shadowing or not, an identity that was registered keeps its payload, source, segment and handle; only
   its state changes.
   */
  lemma {:induction false} ContentStands(k: Codec, cat: Catalog, ops: seq<Operation>, i: Identity)
    requires WeakInv(k, cat) && i in cat.byIdentity
    ensures i in Run(k, cat, ops).byIdentity && SameContent(cat.byIdentity[i], Run(k, cat, ops).byIdentity[i])
    decreases |ops|
  {
    hide WeakInv, Step;
    if ops != [] {
      StepKeepsWeakInv(k, cat, ops[0]);
      StepKeepsContent(k, cat, ops[0], i);
      ContentStands(k, Step(k, cat, ops[0]), ops[1..], i);
    }
  }

  // ---------- The object ----------

  datatype Materialized = Materialized(entries: seq<Entry>, bytes: nat, truncated: bool)

  function TotalPayload(entries: seq<Entry>): nat {
    if entries == [] then 0 else TotalPayload(entries[..|entries| - 1]) + |entries[|entries| - 1].payload|
  }

  lemma TotalOneMore(entries: seq<Entry>, e: Entry)
    ensures TotalPayload(entries + [e]) == TotalPayload(entries) + |e.payload|
  {
    assert (entries + [e])[..|entries|] == entries;
  }

  lemma NoPayload()
    ensures TotalPayload([]) == 0
  {
  }

  class AddressCatalog {
    const k: Codec
    const repository: string
    const generation: string
    var byHandle: map<string, Entry>
    var byIdentity: map<Identity, Entry>
    var collisions: nat

    ghost function Abstract(): Catalog
      reads this
    {
      Catalog(repository, generation, byHandle, byIdentity)
    }

    constructor (codec: Codec, path: string, gen: string)
      requires gen != ""
      ensures k == codec && Abstract() == EmptyCatalog(codec.resolvePath(path), gen) && collisions == 0
    {
      k, repository, generation := codec, codec.resolvePath(path), gen;
      byHandle, byIdentity, collisions := map[], map[], 0;
    }

    method Register(r: Registration) returns (result: Result<Entry, CatalogError>)
      modifies this
      ensures var next := AfterRegister(k, old(Abstract()), r);
              && (next.Failure? ==> result == Failure(next.error) && Abstract() == old(Abstract()))
              && (next.Success? ==> Abstract() == next.value
                                    && result == Success(next.value.byIdentity[(r.namespace, r.canonicalId)]))
      ensures collisions == old(collisions) + if result == Failure(HandleCollision) then 1 else 0
    {
      hide IsNamespace, IsSha, IsState;
      var checked := Check(r);
      if checked.Fail? {
        return Failure(checked.error);
      }
      var identity := (r.namespace, r.canonicalId);
      var payloadSha := k.sha(r.payload);
      if identity in byIdentity {
        var existing := byIdentity[identity];
        if existing.payloadSha != payloadSha || existing.sourceSha != r.sourceSha {
          return Failure(CanonicalIdReuse);
        }
        return Success(existing);
      }
      var handle := k.handle(repository, generation, r.namespace, r.canonicalId);
      if handle in byHandle && byHandle[handle].canonicalId != r.canonicalId {
        collisions := collisions + 1;
        return Failure(HandleCollision);
      }
      var e := Entry(r.namespace, r.canonicalId, handle, repository, generation, r.segment, r.payload, payloadSha,
                     r.sourceSha, r.state);
      byHandle := byHandle[handle := e];
      byIdentity := byIdentity[identity := e];
      result := Success(e);
    }

    method Tombstone(handle: string, state: string) returns (result: Result<Entry, CatalogError>)
      modifies this
      ensures var next := AfterTombstone(old(Abstract()), handle, state);
              && (next.Failure? ==> result == Failure(next.error) && Abstract() == old(Abstract()))
              && (next.Success? ==> Abstract() == next.value && result == Success(next.value.byHandle[handle]))
      ensures collisions == old(collisions)
    {
      if state !in {"superseded", "tombstoned", "held"} {
        return Failure(StateUnsupported);
      }
      if handle !in byHandle {
        return Failure(HandleNotFound);
      }
      var replacement := byHandle[handle].(state := state);
      byHandle := byHandle[handle := replacement];
      byIdentity := byIdentity[IdentityOf(replacement) := replacement];
      result := Success(replacement);
    }

    /**
     `resolve_many_bounded`: the longest run of handles that resolves within both budgets; the first handle
     that cannot be resolved within them raises.
     */
    method ResolveManyBounded(handles: seq<string>, maxEntries: int, maxBytes: int, g: Guards)
      returns (result: Result<Materialized, CatalogError>)
      ensures result == Failure(BudgetInvalid) <==> maxEntries < 1 || maxBytes < 1
      ensures result.Success? ==>
        var m := result.value;
        var n := |m.entries|;
        && n <= |handles| && n <= maxEntries && m.bytes == TotalPayload(m.entries) <= maxBytes
        && (forall i | 0 <= i < n :: Resolution(k, Abstract(), handles[i], g) == Success(m.entries[i]))
        && (m.truncated <==> n < |handles|)
        && (n < |handles| ==>
              n == maxEntries
              || (Resolution(k, Abstract(), handles[n], g).Success?
                  && m.bytes + |Resolution(k, Abstract(), handles[n], g).value.payload| > maxBytes))
      ensures result.Failure? && result.error != BudgetInvalid ==>
        exists n | 0 <= n < |handles| && n < maxEntries ::
          && Resolution(k, Abstract(), handles[n], g) == Failure(result.error)
          && forall i | 0 <= i < n :: Resolution(k, Abstract(), handles[i], g).Success?
    {
      hide Resolution, TotalPayload;
      if maxEntries < 1 || maxBytes < 1 {
        return Failure(BudgetInvalid);
      }
      var entries: seq<Entry> := [];
      var bytes: nat := 0;
      NoPayload();
      for n := 0 to |handles|
        invariant |entries| == n <= maxEntries && bytes == TotalPayload(entries) <= maxBytes
        invariant forall i | 0 <= i < n :: Resolution(k, Abstract(), handles[i], g) == Success(entries[i])
      {
        if |entries| >= maxEntries {
          return Success(Materialized(entries, bytes, true));
        }
        var resolved := Resolve(handles[n], g);
        if resolved.Failure? {
          return Failure(resolved.error);
        }
        if bytes + |resolved.value.payload| > maxBytes {
          return Success(Materialized(entries, bytes, true));
        }
        TotalOneMore(entries, resolved.value);
        bytes := bytes + |resolved.value.payload|;
        entries := entries + [resolved.value];
      }
      result := Success(Materialized(entries, bytes, false));
    }

    method Resolve(handle: string, g: Guards) returns (result: Result<Entry, CatalogError>)
      ensures result == Resolution(k, Abstract(), handle, g) && result != Failure(BudgetInvalid)
    {
      if handle !in byHandle {
        return Failure(HandleNotFound);
      }
      var e := byHandle[handle];
      if g.repository.Some? && k.resolvePath(g.repository.value) != e.repository {
        return Failure(CrossRepository);
      }
      if g.generation.Some? && g.generation.value != e.generation {
        return Failure(StaleGeneration);
      }
      if g.namespace.Some? && g.namespace.value != e.namespace {
        return Failure(NamespaceMismatch);
      }
      if e.state != "active" {
        return Failure(NotActive(e.state));
      }
      if g.payloadSha.Some? && g.payloadSha.value != e.payloadSha {
        return Failure(PayloadDigestMismatch);
      }
      if k.sha(e.payload) != e.payloadSha {
        return Failure(PayloadCorrupt);
      }
      result := Success(e);
    }
  }
}
