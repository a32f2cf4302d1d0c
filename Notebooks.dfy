/**
 * The notebook registry of main/helpers.py: shared-notebook records kept in
 * an in-memory store, the keyword search over them, the choice of a master
 * record for a notebook name, the upsert of a submission keyed by
 * (owner, name), and the usage count of data sources. A record's id is its
 * position in the store; records are never deleted.
 */
module Notebooks {
  import opened Wrappers
  import opened Text
  import opened Sequences
  import Json

  /** A `SharedNotebook` row. `owner` is the owning member's `oh_id`. */
  datatype Notebook = Notebook(
    owner: string,
    name: string,
    content: string,
    description: string,
    tags: seq<string>,
    dataSources: seq<string>,
    createdAt: int,
    updatedAt: int,
    master: Option<nat>)
  {
    /** A record without a master reference is itself a master. */
    predicate IsMaster() {
      master.None?
    }
  }

  type Records = seq<Notebook>

  /** Ids, ascending, of the records satisfying `p` (a queryset filter). */
  function Ids(rs: Records, p: Notebook -> bool): (ids: seq<nat>)
    ensures forall k :: 0 <= k < |ids| ==> ids[k] < |rs| && p(rs[ids[k]])
    ensures forall i :: 0 <= i < |rs| && p(rs[i]) ==> i in ids
    ensures forall a, b :: 0 <= a < b < |ids| ==> ids[a] < ids[b]
  {
    if rs == [] then []
    else
      var ids := Ids(rs[..|rs| - 1], p);
      if p(rs[|rs| - 1]) then ids + [|rs| - 1] else ids
  }

  /** `order_by('updated_at')` key for ids into `rs`. */
  function ByUpdate(rs: Records): nat -> int {
    (i: nat) => if i < |rs| then rs[i].updatedAt else 0
  }

  /** `order_by('created_at')` key for ids into `rs`. */
  function ByCreation(rs: Records): nat -> int {
    (i: nat) => if i < |rs| then rs[i].createdAt else 0
  }

  // The five single-field lookups of the keyword search. Tags and data
  // sources are matched against their stored JSON text.

  /** `tags__contains`: a tag of plain characters is found; a non-ASCII term never is. */
  predicate TagsMatch(nb: Notebook, term: string)
    ensures TagsMatch(nb, term) ==> Json.Ascii(term)
    ensures term in nb.tags && (forall i :: 0 <= i < |term| ==> Json.Plain(term[i])) ==> TagsMatch(nb, term)
  {
    Json.ListSearch(nb.tags, term);
    Contains(Json.Dumps(nb.tags), term)
  }

  /** `data_sources__contains`: the same search over the data sources. */
  predicate SourcesMatch(nb: Notebook, term: string)
    ensures SourcesMatch(nb, term) ==> Json.Ascii(term)
    ensures term in nb.dataSources && (forall i :: 0 <= i < |term| ==> Json.Plain(term[i])) ==> SourcesMatch(nb, term)
  {
    Json.ListSearch(nb.dataSources, term);
    Contains(Json.Dumps(nb.dataSources), term)
  }

  /** `oh_member__oh_username__contains`: the owner's Open Humans username. */
  predicate UserMatch(nb: Notebook, usernames: map<string, string>, term: string) {
    nb.owner in usernames && Contains(usernames[nb.owner], term)
  }

  predicate DescriptionMatch(nb: Notebook, term: string) {
    Contains(nb.description, term)
  }

  predicate NameMatch(nb: Notebook, term: string) {
    Contains(nb.name, term)
  }

  /** The match of a search over all fields: any one of the five. */
  predicate AnyFieldMatch(nb: Notebook, usernames: map<string, string>, term: string) {
    || TagsMatch(nb, term) || SourcesMatch(nb, term) || DescriptionMatch(nb, term)
    || NameMatch(nb, term) || UserMatch(nb, usernames, term)
  }

  /**
   * What a search selects: the one named field for "tags", "data_sources"
   * and "username"; any of the five fields for every other field value.
   */
  predicate Selected(nb: Notebook, usernames: map<string, string>, term: string, field: Option<string>) {
    if field == Some("tags") then TagsMatch(nb, term)
    else if field == Some("data_sources") then SourcesMatch(nb, term)
    else if field == Some("username") then UserMatch(nb, usernames, term)
    else AnyFieldMatch(nb, usernames, term)
  }

  /** Ids, ascending, of the master records satisfying `p` (`filter(..., master_notebook=None)`). */
  function MasterIds(rs: Records, p: Notebook -> bool): (ids: seq<nat>)
    ensures forall k :: 0 <= k < |ids| ==> ids[k] < |rs| && rs[ids[k]].IsMaster() && p(rs[ids[k]])
    ensures forall i :: 0 <= i < |rs| && rs[i].IsMaster() && p(rs[i]) ==> i in ids
    ensures forall a, b :: 0 <= a < b < |ids| ==> ids[a] < ids[b]
    ensures Distinct(ids)
  {
    Ids(rs, (nb: Notebook) => nb.IsMaster() && p(nb))
  }

  /** Ids of the master records matching `p`, ordered by `updated_at`. */
  function MasterIdsByUpdate(rs: Records, p: Notebook -> bool): (r: seq<nat>)
    ensures Distinct(r)
    ensures forall k :: 0 <= k < |r| ==> r[k] < |rs| && rs[r[k]].IsMaster() && p(rs[r[k]])
    ensures forall a, b :: 0 <= a < b < |r| ==> rs[r[a]].updatedAt <= rs[r[b]].updatedAt
    ensures forall i :: 0 <= i < |rs| && rs[i].IsMaster() && p(rs[i]) ==> i in r
  {
    var ids := MasterIds(rs, p);
    var r := SortBy(ids, ByUpdate(rs));
    SortedByUpdate(rs, ids, r);
    r
  }

  /** Sorting distinct ids by `ByUpdate(rs)` keeps them distinct and orders their records. */
  lemma SortedByUpdate(rs: Records, ids: seq<nat>, r: seq<nat>)
    requires Distinct(ids)
    requires forall k :: 0 <= k < |ids| ==> ids[k] < |rs|
    requires multiset(r) == multiset(ids) && SortedBy(r, ByUpdate(rs))
    ensures Distinct(r)
    ensures forall k :: 0 <= k < |r| ==> r[k] in ids && r[k] < |rs|
    ensures forall k :: 0 <= k < |ids| ==> ids[k] in r
    ensures forall a, b :: 0 <= a < b < |r| ==> rs[r[a]].updatedAt <= rs[r[b]].updatedAt
  {
    DistinctPermutation(ids, r);
    PermutationMembers(ids, r);
    forall a, b | 0 <= a < b < |r| ensures rs[r[a]].updatedAt <= rs[r[b]].updatedAt {
      assert ByUpdate(rs)(r[a]) <= ByUpdate(rs)(r[b]);
    }
  }

  /** The five querysets of an all-fields search, one after the other. */
  function AllMatches(rs: Records, usernames: map<string, string>, term: string): seq<nat> {
    MasterIds(rs, nb => TagsMatch(nb, term)) + MasterIds(rs, nb => SourcesMatch(nb, term))
      + MasterIds(rs, nb => DescriptionMatch(nb, term)) + MasterIds(rs, nb => NameMatch(nb, term))
      + MasterIds(rs, nb => UserMatch(nb, usernames, term))
  }

  /** An id is in one of the five querysets exactly when its record is a master matching some field. */
  lemma AllMatchesMembers(rs: Records, usernames: map<string, string>, term: string)
    ensures var all := AllMatches(rs, usernames, term);
      && (forall k :: 0 <= k < |all| ==> all[k] < |rs| && rs[all[k]].IsMaster())
      && (forall i :: 0 <= i < |rs| ==> (i in all <==> rs[i].IsMaster() && AnyFieldMatch(rs[i], usernames, term)))
  {
    var byTag := MasterIds(rs, nb => TagsMatch(nb, term));
    var bySource := MasterIds(rs, nb => SourcesMatch(nb, term));
    var byDescription := MasterIds(rs, nb => DescriptionMatch(nb, term));
    var byName := MasterIds(rs, nb => NameMatch(nb, term));
    var byUser := MasterIds(rs, nb => UserMatch(nb, usernames, term));
    var all := AllMatches(rs, usernames, term);
    assert all == byTag + bySource + byDescription + byName + byUser;
    forall i | 0 <= i < |rs|
      ensures i in all <==> rs[i].IsMaster() && AnyFieldMatch(rs[i], usernames, term)
    {
      MasterIdsMember(rs, nb => TagsMatch(nb, term), i);
      MasterIdsMember(rs, nb => SourcesMatch(nb, term), i);
      MasterIdsMember(rs, nb => DescriptionMatch(nb, term), i);
      MasterIdsMember(rs, nb => NameMatch(nb, term), i);
      MasterIdsMember(rs, nb => UserMatch(nb, usernames, term), i);
    }
    forall k | 0 <= k < |all| ensures all[k] < |rs| && rs[all[k]].IsMaster() {
      var x := all[k];
      assert x in byTag || x in bySource || x in byDescription || x in byName || x in byUser;
    }
  }

  /** Membership in `MasterIds` stated for one id. */
  lemma MasterIdsMember(rs: Records, p: Notebook -> bool, i: nat)
    requires i < |rs|
    ensures i in MasterIds(rs, p) <==> rs[i].IsMaster() && p(rs[i])
  {
  }

  /**
   * The union `tag | source | description | name | user` of the five
   * querysets, one OR filter in SQL: the master records matching any field,
   * each once, in store order.
   */
  function UnionIds(rs: Records, usernames: map<string, string>, term: string): (r: seq<nat>)
    ensures Distinct(r)
    ensures forall a, b :: 0 <= a < b < |r| ==> r[a] < r[b]
    ensures forall k :: 0 <= k < |r| ==> r[k] < |rs| && rs[r[k]].IsMaster()
    ensures forall i :: 0 <= i < |rs| ==>
      (i in r <==> rs[i].IsMaster() && AnyFieldMatch(rs[i], usernames, term))
  {
    var r := MasterIds(rs, nb => AnyFieldMatch(nb, usernames, term));
    forall i | 0 <= i < |rs| ensures i in r <==> rs[i].IsMaster() && AnyFieldMatch(rs[i], usernames, term) {
      MasterIdsMember(rs, nb => AnyFieldMatch(nb, usernames, term), i);
    }
    r
  }

  /** The union holds exactly the ids found by one of the five querysets. */
  lemma UnionOfQuerysets(rs: Records, usernames: map<string, string>, term: string)
    ensures forall i :: i in UnionIds(rs, usernames, term) <==> i in AllMatches(rs, usernames, term)
  {
    AllMatchesMembers(rs, usernames, term);
    var u, all := UnionIds(rs, usernames, term), AllMatches(rs, usernames, term);
    forall i ensures i in u <==> i in all {
      if i in u {
        var k :| 0 <= k < |u| && u[k] == i;
      }
      if i in all {
        var k :| 0 <= k < |all| && all[k] == i;
      }
    }
  }

  /**
   * `find_notebook_by_keywords(term, field)`: exactly the master records
   * the field selects, each once, ordered by `updated_at` ascending.
   */
  function FindByKeywords(rs: Records, usernames: map<string, string>, term: string, field: Option<string>): (r: seq<nat>)
    ensures Distinct(r)
    ensures forall k :: 0 <= k < |r| ==> r[k] < |rs| && rs[r[k]].IsMaster()
    ensures forall a, b :: 0 <= a < b < |r| ==> rs[r[a]].updatedAt <= rs[r[b]].updatedAt
    ensures forall i :: 0 <= i < |rs| ==>
      (i in r <==> rs[i].IsMaster() && Selected(rs[i], usernames, term, field))
  {
    if field == Some("tags") then MasterIdsByUpdate(rs, nb => TagsMatch(nb, term))
    else if field == Some("data_sources") then MasterIdsByUpdate(rs, nb => SourcesMatch(nb, term))
    else if field == Some("username") then MasterIdsByUpdate(rs, nb => UserMatch(nb, usernames, term))
    else UnionIdsByUpdate(rs, usernames, term)
  }

  /** The union of the five querysets, ordered by `updated_at`. */
  function UnionIdsByUpdate(rs: Records, usernames: map<string, string>, term: string): (r: seq<nat>)
    ensures Distinct(r)
    ensures forall k :: 0 <= k < |r| ==> r[k] < |rs| && rs[r[k]].IsMaster()
    ensures forall a, b :: 0 <= a < b < |r| ==> rs[r[a]].updatedAt <= rs[r[b]].updatedAt
    ensures forall i :: 0 <= i < |rs| ==>
      (i in r <==> rs[i].IsMaster() && AnyFieldMatch(rs[i], usernames, term))
  {
    var union := UnionIds(rs, usernames, term);
    var r := SortBy(union, ByUpdate(rs));
    SortedByUpdate(rs, union, r);
    r
  }

  /** `nb` has the given name and another owner. */
  predicate OtherCopy(nb: Notebook, name: string, owner: string) {
    nb.name == name && nb.owner != owner
  }

  /** After sorting ids by `ByCreation(rs)`, the first has the earliest `created_at`. */
  lemma EarliestFirst(rs: Records, ids: seq<nat>, r: seq<nat>)
    requires forall k :: 0 <= k < |ids| ==> ids[k] < |rs|
    requires multiset(r) == multiset(ids) && SortedBy(r, ByCreation(rs))
    ensures r == [] <==> ids == []
    ensures r != [] ==> r[0] in ids
    ensures r != [] ==> forall k :: 0 <= k < |ids| ==> rs[r[0]].createdAt <= rs[ids[k]].createdAt
  {
    if r == [] {
      assert |multiset(ids)| == 0;
      return;
    }
    PermutationMembers(ids, r);
    forall k | 0 <= k < |ids| ensures rs[r[0]].createdAt <= rs[ids[k]].createdAt {
      var j :| 0 <= j < |r| && r[j] == ids[k];
      assert ByCreation(rs)(r[0]) <= ByCreation(rs)(r[j]);
    }
  }

  /**
   * `identify_master_notebook(name, owner)`: no record when no other member
   * has a notebook of that name, and otherwise one of theirs with the
   * earliest `created_at`.
   */
  function IdentifyMaster(rs: Records, name: string, owner: string): (r: Option<nat>)
    ensures r.None? <==> forall i :: 0 <= i < |rs| ==> !OtherCopy(rs[i], name, owner)
    ensures r.Some? ==>
      && r.value < |rs|
      && OtherCopy(rs[r.value], name, owner)
      && forall i :: 0 <= i < |rs| && OtherCopy(rs[i], name, owner) ==>
           rs[r.value].createdAt <= rs[i].createdAt
  {
    var others := Ids(rs, (nb: Notebook) => OtherCopy(nb, name, owner));
    NoOtherCopies(rs, name, owner);
    if others == [] then None
    else
      var sorted := SortBy(others, ByCreation(rs));
      EarliestFirst(rs, others, sorted);
      Some(sorted[0])
  }

  /** No other member's copy is listed exactly when there is none. */
  lemma NoOtherCopies(rs: Records, name: string, owner: string)
    ensures Ids(rs, (nb: Notebook) => OtherCopy(nb, name, owner)) == [] <==>
      forall i :: 0 <= i < |rs| ==> !OtherCopy(rs[i], name, owner)
  {
    var others := Ids(rs, (nb: Notebook) => OtherCopy(nb, name, owner));
    if others != [] {
      assert OtherCopy(rs[others[0]], name, owner);
    }
  }

  /** Records stay where they are unless owned by `owner`; appended records are `owner`'s. */
  predicate OnlyOwnerTouched(rs: Records, rs2: Records, owner: string) {
    && |rs| <= |rs2|
    && (forall i :: 0 <= i < |rs| && rs[i].owner != owner ==> rs2[i] == rs[i])
    && (forall i :: 0 <= i < |rs| && rs[i].owner == owner ==> rs2[i].owner == owner)
    && (forall i :: |rs| <= i < |rs2| ==> rs2[i].owner == owner)
  }

  lemma {:induction false} OtherCopiesUnchanged(rs: Records, rs2: Records, name: string, owner: string)
    requires OnlyOwnerTouched(rs, rs2, owner)
    ensures Ids(rs2, (nb: Notebook) => OtherCopy(nb, name, owner)) == Ids(rs, (nb: Notebook) => OtherCopy(nb, name, owner))
    decreases |rs2|
  {
    if |rs2| > |rs| {
      OtherCopiesUnchanged(rs, rs2[..|rs2| - 1], name, owner);
    } else if rs != [] {
      OtherCopiesUnchanged(rs[..|rs| - 1], rs2[..|rs2| - 1], name, owner);
    }
  }

  /**
   * The master of a name does not depend on the uploader's own records, so
   * recomputing it after `get_or_create` or after an update gives the same
   * record.
   */
  lemma MasterIgnoresOwnRecords(rs: Records, rs2: Records, name: string, owner: string)
    requires OnlyOwnerTouched(rs, rs2, owner)
    ensures IdentifyMaster(rs2, name, owner) == IdentifyMaster(rs, name, owner)
  {
    var others := Ids(rs, (nb: Notebook) => OtherCopy(nb, name, owner));
    OtherCopiesUnchanged(rs, rs2, name, owner);
    SortByAgree(others, ByCreation(rs2), ByCreation(rs));
  }

  /** The form fields of one notebook submission. */
  datatype Submission = Submission(
    owner: string,
    name: string,
    content: string,
    description: string,
    tagsCsv: string,
    sourcesCsv: string)

  /** `get_or_create`'s lookup: the record keyed by (owner, name), if any. */
  function FindRecord(rs: Records, owner: string, name: string): (r: Option<nat>)
    ensures r.None? <==> forall i :: 0 <= i < |rs| ==> !(rs[i].owner == owner && rs[i].name == name)
    ensures r.Some? ==> r.value < |rs| && rs[r.value].owner == owner && rs[r.value].name == name
  {
    var ids := Ids(rs, (nb: Notebook) => nb.owner == owner && nb.name == name);
    if ids == [] then None else Some(ids[0])
  }

  /** At most one record per (owner, name). */
  predicate UniqueKeys(rs: Records) {
    forall i, j :: 0 <= i < j < |rs| ==> !(rs[i].owner == rs[j].owner && rs[i].name == rs[j].name)
  }

  /** Master references point at records of the store. */
  predicate MastersInRange(rs: Records) {
    forall i :: 0 <= i < |rs| && rs[i].master.Some? ==> rs[i].master.value < |rs|
  }

  predicate WellFormed(rs: Records) {
    UniqueKeys(rs) && MastersInRange(rs)
  }

  /** The record a submission leaves behind. */
  function Filled(sub: Submission, createdAt: int, now: int, master: Option<nat>): Notebook {
    Notebook(sub.owner, sub.name, sub.content, sub.description,
             ParseList(sub.tagsCsv), ParseList(sub.sourcesCsv), createdAt, now, master)
  }

  /** The store after `add_notebook_helper` handles `sub` at time `now`. */
  function Upserted(rs: Records, sub: Submission, now: int): (r: Records)
    ensures |r| == (if FindRecord(rs, sub.owner, sub.name).None? then |rs| + 1 else |rs|)
    ensures forall i :: 0 <= i < |rs| && (rs[i].owner != sub.owner || rs[i].name != sub.name) ==> r[i] == rs[i]
    ensures exists i :: 0 <= i < |r| && r[i].owner == sub.owner && r[i].name == sub.name && r[i].updatedAt == now
  {
    var master := IdentifyMaster(rs, sub.name, sub.owner);
    match FindRecord(rs, sub.owner, sub.name)
    case None =>
      var r := rs + [Filled(sub, now, now, master)];
      assert r[|rs|] == Filled(sub, now, now, master);
      r
    case Some(i) =>
      var r := rs[i := Filled(sub, rs[i].createdAt, now, master)];
      assert r[i] == Filled(sub, rs[i].createdAt, now, master);
      r
  }

  /**
   * What an upload does to the store: afterwards exactly one record has the
   * submission's (owner, name); it carries the parsed fields, the new
   * `updated_at`, the master `identify_master_notebook` finds (before or
   * after the record is written), and a `created_at` that is set only when
   * the record is new. Every other record is unchanged.
   */
  lemma UpsertEffect(rs: Records, sub: Submission, now: int)
    requires WellFormed(rs)
    ensures var rs2 := Upserted(rs, sub, now);
      var created := FindRecord(rs, sub.owner, sub.name).None?;
      && WellFormed(rs2)
      && |rs2| == (if created then |rs| + 1 else |rs|)
      && FindRecord(rs2, sub.owner, sub.name).Some?
      && var id := FindRecord(rs2, sub.owner, sub.name).value;
      && rs2[id].description == sub.description
      && rs2[id].content == sub.content
      && rs2[id].tags == ParseList(sub.tagsCsv)
      && rs2[id].dataSources == ParseList(sub.sourcesCsv)
      && rs2[id].updatedAt == now
      && rs2[id].createdAt == (if created then now else rs[id].createdAt)
      && rs2[id].master == IdentifyMaster(rs, sub.name, sub.owner)
      && rs2[id].master == IdentifyMaster(rs2, sub.name, sub.owner)
      && forall i :: 0 <= i < |rs| && i != id ==> rs2[i] == rs[i]
  {
    var rs2 := Upserted(rs, sub, now);
    UpsertWellFormed(rs, sub, now);
    UpsertSlot(rs, sub, now);
    MasterIgnoresOwnRecords(rs, rs2, sub.name, sub.owner);
  }

  /** The record written by an upload: the old one for its key, else a new last one. */
  function Slot(rs: Records, sub: Submission): nat {
    match FindRecord(rs, sub.owner, sub.name)
    case None => |rs|
    case Some(i) => i
  }

  lemma UpsertSlot(rs: Records, sub: Submission, now: int)
    requires UniqueKeys(rs)
    ensures var rs2 := Upserted(rs, sub, now);
      && Slot(rs, sub) < |rs2|
      && FindRecord(rs2, sub.owner, sub.name) == Some(Slot(rs, sub))
      && rs2[Slot(rs, sub)] == Filled(sub, if Slot(rs, sub) == |rs| then now else rs[Slot(rs, sub)].createdAt,
                                      now, IdentifyMaster(rs, sub.name, sub.owner))
      && (forall i :: 0 <= i < |rs| && i != Slot(rs, sub) ==> rs2[i] == rs[i])
      && OnlyOwnerTouched(rs, rs2, sub.owner)
  {
    var rs2 := Upserted(rs, sub, now);
    var master := IdentifyMaster(rs, sub.name, sub.owner);
    match FindRecord(rs, sub.owner, sub.name)
    case None =>
      var x := Filled(sub, now, now, master);
      assert rs2 == rs + [x];
      WrittenIsFound(rs, |rs|, x);
      OwnWriteOnly(rs, rs2, |rs|, sub.owner);
    case Some(k) =>
      var x := Filled(sub, rs[k].createdAt, now, master);
      assert rs2 == rs[k := x];
      WrittenIsFound(rs, k, x);
      OwnWriteOnly(rs, rs2, k, sub.owner);
  }

  lemma OwnWriteOnly(rs: Records, rs2: Records, id: nat, owner: string)
    requires id <= |rs| && |rs2| == (if id == |rs| then |rs| + 1 else |rs|)
    requires rs2[id].owner == owner && (id < |rs| ==> rs[id].owner == owner)
    requires forall i :: 0 <= i < |rs| && i != id ==> rs2[i] == rs[i]
    ensures OnlyOwnerTouched(rs, rs2, owner)
  {
  }

  /** Writing `x` over its own key's record, or appending it under a new key, keeps keys unique and makes it the one `FindRecord` returns. */
  lemma WrittenIsFound(rs: Records, id: nat, x: Notebook)
    requires UniqueKeys(rs)
    requires id <= |rs|
    requires id < |rs| ==> rs[id].owner == x.owner && rs[id].name == x.name
    requires id == |rs| ==> FindRecord(rs, x.owner, x.name).None?
    ensures var rs2 := if id == |rs| then rs + [x] else rs[id := x];
      UniqueKeys(rs2) && FindRecord(rs2, x.owner, x.name) == Some(id)
  {
    var rs2 := if id == |rs| then rs + [x] else rs[id := x];
    assert forall i :: 0 <= i < |rs2| && i != id ==> rs2[i] == rs[i];
    assert rs2[id] == x;
  }

  lemma UpsertWellFormed(rs: Records, sub: Submission, now: int)
    requires WellFormed(rs)
    ensures WellFormed(Upserted(rs, sub, now))
  {
    var rs2 := Upserted(rs, sub, now);
    var id := Slot(rs, sub);
    UpsertSlot(rs, sub, now);
    forall i, j | 0 <= i < j < |rs2|
      ensures !(rs2[i].owner == rs2[j].owner && rs2[i].name == rs2[j].name)
    {
      if i != id && j != id {
        assert rs2[i] == rs[i] && rs2[j] == rs[j];
      }
    }
  }

  /** Uploading the same submission twice at the same time changes nothing the second time. */
  lemma UpsertIdempotent(rs: Records, sub: Submission, now: int)
    requires WellFormed(rs)
    ensures Upserted(Upserted(rs, sub, now), sub, now) == Upserted(rs, sub, now)
  {
    var rs2 := Upserted(rs, sub, now);
    var id := Slot(rs, sub);
    UpsertSlot(rs, sub, now);
    MasterIgnoresOwnRecords(rs, rs2, sub.name, sub.owner);
    var x := rs2[id];
    assert Upserted(rs2, sub, now) == rs2[id := Filled(sub, x.createdAt, now, IdentifyMaster(rs2, sub.name, sub.owner))];
    assert Filled(sub, x.createdAt, now, IdentifyMaster(rs2, sub.name, sub.owner)) == x;
    assert rs2[id := x] == rs2;
  }

  /**
   * The code keeps no "one master per name" invariant. Member A owns master
   * record 0; member B's same-named record 1 points at it. When A uploads
   * the notebook again, record 0 is pointed at record 1: the two records
   * name each other as master, neither is a master any more, and so no
   * search finds the notebook.
   */
  lemma ReuploadLinksRecordsMutually(a: Notebook, b: Notebook, sub: Submission, now: int)
    requires a.owner == sub.owner && a.name == sub.name && a.IsMaster()
    requires b.owner != sub.owner && b.name == sub.name && b.master == Some(0)
    ensures var rs := Upserted([a, b], sub, now);
      && |rs| == 2
      && rs[0].master == Some(1) && rs[1].master == Some(0)
      && forall i :: 0 <= i < |rs| ==> !rs[i].IsMaster()
  {
    ReuploadResult(a, b, sub, now);
  }

  /** The store after the re-upload: A's record is rewritten with B's as master. */
  lemma ReuploadResult(a: Notebook, b: Notebook, sub: Submission, now: int)
    requires a.owner == sub.owner && a.name == sub.name
    requires b.owner != sub.owner && b.name == sub.name
    ensures Upserted([a, b], sub, now) == [Filled(sub, a.createdAt, now, Some(1)), b]
  {
    var rs0 := [a, b];
    assert rs0[0] == a && rs0[1] == b;
    assert FindRecord(rs0, sub.owner, sub.name) == Some(0) by {
      assert rs0[0].owner == sub.owner && rs0[0].name == sub.name;
    }
    SoleOtherCopy(rs0, sub.name, sub.owner, 1);
    assert Upserted(rs0, sub, now) == rs0[0 := Filled(sub, a.createdAt, now, Some(1))];
  }

  /** When one record alone has the name and another owner, it is the master. */
  lemma SoleOtherCopy(rs: Records, name: string, owner: string, j: nat)
    requires j < |rs| && OtherCopy(rs[j], name, owner)
    requires forall i :: 0 <= i < |rs| && i != j ==> !OtherCopy(rs[i], name, owner)
    ensures IdentifyMaster(rs, name, owner) == Some(j)
  {
  }

  /** The data sources of the master records, in store order. */
  function MasterSources(rs: Records): (sources: seq<string>)
    ensures forall s :: s in sources <==> exists i :: 0 <= i < |rs| && rs[i].IsMaster() && s in rs[i].dataSources
  {
    if rs == [] then []
    else
      var init, last := rs[..|rs| - 1], rs[|rs| - 1];
      assert forall i :: 0 <= i < |init| ==> init[i] == rs[i];
      MasterSources(init) + (if last.IsMaster() then last.dataSources else [])
  }

  /** The names of a list of (name, count) pairs. */
  function Names(counts: seq<(string, nat)>): (names: seq<string>)
    ensures |names| == |counts|
    ensures forall k :: 0 <= k < |counts| ==> names[k] == counts[k].0
  {
    seq(|counts|, k requires 0 <= k < |counts| => counts[k].0)
  }

  /**
   * `tally` counts every name of `seen`, and `order` lists the counted
   * names once each, in order of first occurrence (a `defaultdict`).
   */
  ghost predicate TallyOf(tally: map<string, nat>, order: seq<string>, seen: seq<string>) {
    && Distinct(order)
    && (forall s :: s in tally <==> s in seen)
    && (forall s :: s in tally <==> s in order)
    && (forall s :: s in tally ==> tally[s] == multiset(seen)[s])
  }

  /** Sort key putting larger counts first. */
  function ByCountDesc(p: (string, nat)): int {
    -(p.1 as int)
  }

  /** Adds one record's data sources to a tally (the inner loop of the count). */
  method TallySources(tally: map<string, nat>, order: seq<string>, ghost seen: seq<string>, sources: seq<string>)
    returns (tally': map<string, nat>, order': seq<string>)
    requires TallyOf(tally, order, seen)
    ensures TallyOf(tally', order', seen + sources)
  {
    tally', order' := tally, order;
    for j := 0 to |sources|
      invariant TallyOf(tally', order', seen + sources[..j])
    {
      assert seen + sources[..j + 1] == (seen + sources[..j]) + [sources[j]];
      var source := sources[j];
      if source in tally' {
        tally' := tally'[source := tally'[source] + 1];
      } else {
        tally' := tally'[source := 1];
        order' := order' + [source];
      }
    }
    assert sources[..|sources|] == sources;
  }

  /** The pairs `sdict.items()` of a tally, sorted by count, largest first. */
  lemma SortedTally(tally: map<string, nat>, order: seq<string>, seen: seq<string>,
                    items: seq<(string, nat)>, counts: seq<(string, nat)>)
    requires TallyOf(tally, order, seen)
    requires |items| == |order|
    requires forall k :: 0 <= k < |order| ==> items[k] == (order[k], tally[order[k]])
    requires multiset(counts) == multiset(items)
    requires SortedBy(counts, ByCountDesc)
    ensures Distinct(Names(counts))
    ensures forall s :: s in Names(counts) <==> s in seen
    ensures forall k :: 0 <= k < |counts| ==> counts[k].1 == multiset(seen)[counts[k].0]
    ensures forall a, b :: 0 <= a < b < |counts| ==> counts[a].1 >= counts[b].1
  {
    assert Distinct(items);
    DistinctPermutation(items, counts);
    PermutationMembers(items, counts);
    forall a, b | 0 <= a < b < |counts| ensures counts[a].1 >= counts[b].1 {
      assert ByCountDesc(counts[a]) <= ByCountDesc(counts[b]);
    }
    forall s | s in seen ensures s in Names(counts) {
      var k :| 0 <= k < |order| && order[k] == s;
      var j :| 0 <= j < |counts| && counts[j] == items[k];
      assert Names(counts)[j] == s;
    }
  }

  /** The registry's store of `SharedNotebook` rows. */
  class NotebookStore {
    var records: Records

    ghost predicate Valid()
      reads this
    {
      WellFormed(records)
    }

    constructor ()
      ensures Valid() && records == []
    {
      records := [];
    }

    /**
     * `add_notebook_helper`: `get_or_create` by (owner, name), overwrite the
     * submitted fields and the master link, and stamp `created_at` only on
     * creation. `created` selects the "shared" or the "updated" message.
     */
    method AddNotebook(sub: Submission, now: int) returns (created: bool)
      requires Valid()
      modifies this
      ensures Valid()
      ensures created <==> FindRecord(old(records), sub.owner, sub.name).None?
      ensures records == Upserted(old(records), sub, now)
    {
      ghost var before := records;
      ghost var master := IdentifyMaster(before, sub.name, sub.owner);
      var found := FindRecord(records, sub.owner, sub.name);
      created := found.None?;
      var id: nat;
      if created {
        records := records + [Notebook(sub.owner, sub.name, "", "", [], [], now, now, None)];
        id := |records| - 1;
      } else {
        id := found.value;
      }
      assert IdentifyMaster(records, sub.name, sub.owner) == master by {
        OwnWriteOnly(before, records, id, sub.owner);
        MasterIgnoresOwnRecords(before, records, sub.name, sub.owner);
      }
      var nb := records[id];
      nb := nb.(description := sub.description);
      nb := nb.(tags := ParseList(sub.tagsCsv));
      nb := nb.(dataSources := ParseList(sub.sourcesCsv));
      nb := nb.(name := sub.name, content := sub.content, updatedAt := now, owner := sub.owner);
      nb := nb.(master := IdentifyMaster(records, sub.name, sub.owner));
      if created {
        nb := nb.(createdAt := now);
      }
      assert nb == Filled(sub, if created then now else before[id].createdAt, now, master);
      records := records[id := nb];
      assert records == Upserted(before, sub, now) by {
        if created {
          assert records == before + [nb];
        }
      }
      UpsertWellFormed(before, sub, now);
    }

    /**
     * `get_all_data_sources_numeric`: every data source named by a master
     * record, once, with the number of its occurrences over the master
     * records, largest count first.
     */
    method AllDataSourcesNumeric() returns (counts: seq<(string, nat)>)
      ensures Distinct(Names(counts))
      ensures forall s :: s in Names(counts) <==> s in MasterSources(records)
      ensures forall k :: 0 <= k < |counts| ==> counts[k].1 == multiset(MasterSources(records))[counts[k].0]
      ensures forall a, b :: 0 <= a < b < |counts| ==> counts[a].1 >= counts[b].1
    {
      var tally: map<string, nat> := map[];
      var order: seq<string> := [];
      for i := 0 to |records|
        invariant TallyOf(tally, order, MasterSources(records[..i]))
      {
        assert records[..i + 1][..i] == records[..i];
        if records[i].IsMaster() {
          tally, order := TallySources(tally, order, MasterSources(records[..i]), records[i].dataSources);
        } else {
          assert MasterSources(records[..i + 1]) == MasterSources(records[..i]) + [];
        }
      }
      assert records[..|records|] == records;
      var items := seq(|order|, k requires 0 <= k < |order| => (order[k], tally[order[k]]));
      counts := SortBy(items, ByCountDesc);
      SortedTally(tally, order, MasterSources(records), items, counts);
    }

    /** `get_all_data_sources`: the names of `AllDataSourcesNumeric`, in its order. */
    method AllDataSources() returns (names: seq<string>)
      ensures Distinct(names)
      ensures forall s :: s in names <==> s in MasterSources(records)
      ensures forall a, b :: 0 <= a < b < |names| ==>
        multiset(MasterSources(records))[names[a]] >= multiset(MasterSources(records))[names[b]]
    {
      var counts := AllDataSourcesNumeric();
      names := Names(counts);
    }
  }
}
