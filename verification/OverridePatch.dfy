/** Recurrence overrides of the EWS importer (src/exchange_ews/calendar_map.rs, src/exchange/jscalendar.rs):
    the patch that turns the base event into one of its modified occurrences. */
module OverridePatch {
  import opened Wrappers
  import opened Text

  datatype Json =
    | Null
    | Bool(b: bool)
    | Number(text: string)
    | String(s: string)
    | Array(items: seq<Json>)
    | Object(members: map<string, Json>)

  type Event = map<string, Json>

  // ----- keys that an override may not hold

  const IGNORED_EXACT: seq<string> := ["@type", "method", "organizerCalendarAddress", "privacy", "prodId",
    "recurrenceId", "recurrenceIdTimeZone", "sentBy", "uid"]

  const IGNORED_FIRST_TOKEN: seq<string> := ["recurrenceOverrides", "recurrenceRule", "relatedTo"]

  const NOT_PATCHED_PER_OCCURRENCE: seq<string> := ["created", "updated"]

  /** The tokens of a pointer: `split('/')`. */
  function Tokens(pointer: string): (r: seq<string>)
    ensures |r| >= 1
    decreases |pointer|
  {
    var first := BeforeFirst(pointer, '/');
    if |first| == |pointer| then [first] else [first] + Tokens(pointer[|first| + 1..])
  }

  /** `is_participant_calendar_address`. */
  predicate IsParticipantCalendarAddress(pointer: string) {
    var t := Tokens(pointer);
    |t| == 3 && t[0] == "participants" && t[2] == "calendarAddress"
  }

  /** `is_override_ignored`. */
  predicate IsOverrideIgnored(pointer: string) {
    || pointer in IGNORED_EXACT
    || IsParticipantCalendarAddress(pointer)
    || Tokens(pointer)[0] in IGNORED_FIRST_TOKEN
  }

  /** `is_override_excluded`. */
  predicate IsOverrideExcluded(key: string) {
    IsOverrideIgnored(key) || key in NOT_PATCHED_PER_OCCURRENCE
  }

  /** The keys that an override never holds. */
  lemma ExcludedKeys(key: string)
    ensures
      IsOverrideExcluded(key)
      <==>
      || key in ["@type", "method", "organizerCalendarAddress", "privacy", "prodId", "recurrenceId",
           "recurrenceIdTimeZone", "sentBy", "uid", "created", "updated"]
      || BeforeFirst(key, '/') in ["recurrenceOverrides", "recurrenceRule", "relatedTo"]
      || exists id :: '/' !in id && key == "participants" + ['/'] + (id + ['/'] + "calendarAddress")
  {
    FirstToken(key);
    ParticipantKey(key);
    hide Tokens, IsParticipantCalendarAddress;
  }

  lemma FirstToken(key: string)
    ensures Tokens(key)[0] == BeforeFirst(key, '/')
  {
  }

  lemma TokensOf(first: string, rest: string)
    requires '/' !in first
    ensures Tokens(first) == [first]
    ensures Tokens(first + ['/'] + rest) == [first] + Tokens(rest)
  {
    BeforeFirstAt(first, '/', rest);
    var s := first + ['/'] + rest;
    assert s[|first| + 1..] == rest;
    assert BeforeFirst(s, '/') == first;
  }

  lemma CutToken(key: string)
    ensures '/' !in key ==> Tokens(key) == [key]
    ensures
      '/' in key ==>
        var first := BeforeFirst(key, '/');
        && |first| < |key| && key == first + ['/'] + key[|first| + 1..]
        && Tokens(key) == [first] + Tokens(key[|first| + 1..])
  {
  }

  lemma ParticipantKey(key: string)
    ensures
      IsParticipantCalendarAddress(key)
      <==> exists id :: '/' !in id && key == "participants" + ['/'] + (id + ['/'] + "calendarAddress")
  {
    hide Tokens, BeforeFirst;
    if id :| '/' !in id && key == "participants" + ['/'] + (id + ['/'] + "calendarAddress") {
      TokensOf("participants", id + ['/'] + "calendarAddress");
      TokensOf(id, "calendarAddress");
      TokensOf("calendarAddress", "");
    }
    if IsParticipantCalendarAddress(key) {
      CutToken(key);
      var rest := key[|BeforeFirst(key, '/')| + 1..];
      CutToken(rest);
      var id := BeforeFirst(rest, '/');
      CutToken(rest[|id| + 1..]);
      assert key == "participants" + ['/'] + (id + ['/'] + "calendarAddress");
    }
  }

  // ----- the patch

  function Get(e: Event, k: string): Option<Json> {
    if k in e then Some(e[k]) else None
  }

  /** The base event as an occurrence inherits it: it starts at its recurrence id. */
  function Inherited(base: Event, id: string): Event {
    base["start" := String(id)]
  }

  /** The patch has the key: the occurrence's own value is not the inherited one, or it drops an inherited key. */
  predicate Patched(occ: Event, base: Event, id: string, k: string) {
    && !IsOverrideExcluded(k)
    && if k in occ then Get(Inherited(base, id), k) != Some(occ[k]) else k in base && k != "start"
  }

  function Patch(occ: Event, base: Event, id: string): Event {
    map k | k in occ.Keys + base.Keys && Patched(occ, base, id, k) :: if k in occ then occ[k] else Null
  }

  lemma SameMembers(a: Event, b: Event)
    requires forall k :: Get(a, k) == Get(b, k)
    ensures a == b
  {
    forall k
      ensures k in a <==> k in b
      ensures k in a ==> a[k] == b[k]
    {
      assert Get(a, k) == Get(b, k);
    }
  }

  /** `override_patch`. */
  method OverridePatch(occ: Event, base: Event, id: string) returns (patch: Event)
    ensures patch == Patch(occ, base, id)
  {
    hide IsOverrideExcluded, Inherited;
    patch := map[];
    var todo := occ.Keys;
    while todo != {}
      invariant todo <= occ.Keys
      invariant forall k ::
        Get(patch, k) == if k in occ && k !in todo && Patched(occ, base, id, k) then Some(occ[k]) else None
      decreases todo
    {
      var k :| k in todo;
      InheritedAt(base, id, k);
      todo := todo - {k};
      if !IsOverrideExcluded(k) {
        var baseline := if k == "start" then Some(String(id)) else Get(base, k);
        if baseline != Some(occ[k]) {
          patch := patch[k := occ[k]];
        }
      }
    }
    todo := base.Keys;
    while todo != {}
      invariant todo <= base.Keys
      invariant forall k ::
        Get(patch, k) ==
          (if !Patched(occ, base, id, k) then None
           else if k in occ then Some(occ[k])
           else if k in base && k !in todo then Some(Null)
           else None)
      decreases todo
    {
      var k :| k in todo;
      todo := todo - {k};
      if k != "start" && !IsOverrideExcluded(k) && k !in occ {
        patch := patch[k := Null];
      }
    }
    SameMembers(patch, Patch(occ, base, id));
  }

  lemma InheritedAt(base: Event, id: string, k: string)
    ensures Get(Inherited(base, id), k) == if k == "start" then Some(String(id)) else Get(base, k)
  {
  }

  // ----- applying a patch, section 1.4.9 of RFC 8984

  /** The name is a single token of a pointer, so that a patch key naming it means the member of that name. */
  predicate IsPlainName(k: string) {
    '/' !in k && '~' !in k
  }

  predicate PlainNames(e: Event) {
    forall k :: k in e ==> IsPlainName(k)
  }

  /** Null removes a member; any other value replaces or adds it. */
  function Apply(e: Event, patch: Event): Event
    requires PlainNames(patch)
  {
    map k | k in e.Keys + patch.Keys && !(k in patch && patch[k] == Null) :: if k in patch then patch[k] else e[k]
  }

  lemma PatchIsPlain(occ: Event, base: Event, id: string)
    requires PlainNames(occ) && PlainNames(base)
    ensures PlainNames(Patch(occ, base, id))
  {
    hide IsOverrideExcluded, IsPlainName;
  }

  /** The patch makes an occurrence of the inherited event, key by key: every key that an override may hold comes
      out as in the occurrence, except a start that the occurrence lacks, and a null of its own that it does not
      inherit as null, since null means removal. */
  lemma PatchMakesOccurrence(occ: Event, base: Event, id: string, k: string)
    requires PlainNames(occ) && PlainNames(base) && !IsOverrideExcluded(k)
    ensures PlainNames(Patch(occ, base, id))
    ensures Get(Apply(Inherited(base, id), Patch(occ, base, id)), k) == Get(occ, k) <==>
      && (k == "start" ==> k in occ)
      && (k in occ && occ[k] == Null ==> Get(Inherited(base, id), k) == Some(Null))
  {
    PatchIsPlain(occ, base, id);
    hide IsOverrideExcluded, PlainNames;
  }

  /** And it leaves the keys that an override may not hold as they were. */
  lemma PatchKeepsExcluded(occ: Event, base: Event, id: string, k: string)
    requires PlainNames(occ) && PlainNames(base) && IsOverrideExcluded(k)
    ensures PlainNames(Patch(occ, base, id)) && k !in Patch(occ, base, id)
    ensures Get(Apply(Inherited(base, id), Patch(occ, base, id)), k) == Get(Inherited(base, id), k)
  {
    PatchIsPlain(occ, base, id);
    hide IsOverrideExcluded, PlainNames;
  }

  /** No patch with fewer keys would do: whatever patch brings a key to the occurrence's value has that key,
      whenever this patch has it. */
  lemma PatchIsMinimal(occ: Event, base: Event, id: string, other: Event, k: string)
    requires PlainNames(other) && k in Patch(occ, base, id)
    requires Get(Apply(Inherited(base, id), other), k) == Get(occ, k)
    ensures k in other
  {
    hide IsOverrideExcluded, PlainNames;
  }

  // ----- the overrides of a series

  /** A modified occurrence: its recurrence id if it has one, its item, and the patch made of its times alone. */
  datatype Modified = Modified(key: Option<string>, itemId: string, timePatch: Event)

  /** The full event of an occurrence, if it was fetched: the first one with the same, non-empty id. */
  function FullEvent(itemId: string, full: seq<(string, Event)>): Option<Event> {
    if full == [] then None
    else if itemId != "" && full[0].0 == itemId then Some(full[0].1)
    else FullEvent(itemId, full[1..])
  }

  /** The full event is that of the first entry with the id; an empty id has none. */
  lemma {:induction false} FullEventIsFirst(itemId: string, full: seq<(string, Event)>, i: nat)
    requires |itemId| > 0 && i < |full| && full[i].0 == itemId && forall j :: 0 <= j < i ==> full[j].0 != itemId
    ensures FullEvent(itemId, full) == Some(full[i].1)
    decreases i
  {
    if i > 0 {
      FullEventIsFirst(itemId, full[1..], i - 1);
    }
  }

  lemma {:induction false} NoFullEvent(itemId: string, full: seq<(string, Event)>)
    requires |itemId| == 0 || forall j :: 0 <= j < |full| ==> full[j].0 != itemId
    ensures FullEvent(itemId, full) == None
  {
    if full != [] {
      NoFullEvent(itemId, full[1..]);
    }
  }

  function OverrideFor(m: Modified, key: string, base: Event, full: seq<(string, Event)>): Event {
    match FullEvent(m.itemId, full)
    case Some(occ) => Patch(occ, base, key)
    case None => m.timePatch
  }

  function Excluded(): Event {
    map["excluded" := Bool(true)]
  }

  /** The override that stands for a recurrence id: a deletion, or else the last modification. */
  function OverrideAt(base: Event, modified: seq<Modified>, deleted: seq<Option<string>>, full: seq<(string, Event)>,
      key: string): Option<Event>
  {
    if Some(key) in deleted then Some(Excluded())
    else if modified == [] then None
    else
      var last := modified[|modified| - 1];
      if last.key == Some(key) then Some(OverrideFor(last, key, base, full))
      else OverrideAt(base, modified[..|modified| - 1], deleted, full, key)
  }

  /** A deleted occurrence is marked as excluded, whatever else there is for it. */
  lemma DeletedIsExcluded(base: Event, modified: seq<Modified>, deleted: seq<Option<string>>,
      full: seq<(string, Event)>, key: string)
    ensures
      Some(key) in deleted ==>
        OverrideAt(base, modified, deleted, full, key) == Some(map["excluded" := Bool(true)])
  {
  }

  /** `build_recurrence_overrides`. */
  method BuildRecurrenceOverrides(base: Event, modified: seq<Modified>, deleted: seq<Option<string>>,
      full: seq<(string, Event)>)
    returns (r: Option<map<string, Event>>)
    ensures forall key ::
      OverrideAt(base, modified, deleted, full, key) == (if r.Some? && key in r.value then Some(r.value[key]) else None)
    ensures r.Some? ==> r.value != map[]
  {
    hide OverrideFor, OverrideAt, FullEvent;
    var overrides: map<string, Event> := map[];
    NothingModified(base, full);
    for i := 0 to |modified|
      invariant forall key ::
        OverrideAt(base, modified[..i], [], full, key) == (if key in overrides then Some(overrides[key]) else None)
    {
      var m := modified[i];
      forall key
        ensures OverrideAt(base, modified[..i + 1], [], full, key)
          == if m.key == Some(key) then Some(OverrideFor(m, key, base, full))
             else OverrideAt(base, modified[..i], [], full, key)
      {
        LastModification(base, modified, i, full, key);
      }
      if m.key.Some? {
        var occ := FullEvent(m.itemId, full);
        var patch;
        if occ.Some? {
          patch := OverridePatch(occ.value, base, m.key.value);
        } else {
          patch := m.timePatch;
        }
        assert patch == OverrideFor(m, m.key.value, base, full) by {
          OverrideForIs(m, m.key.value, base, full);
        }
        overrides := overrides[m.key.value := patch];
      }
    }
    assert modified[..|modified|] == modified;
    ghost var first := overrides;
    for i := 0 to |deleted|
      invariant forall key :: key in overrides <==> key in first || Some(key) in deleted[..i]
      invariant forall key ::
        key in overrides ==> overrides[key] == (if Some(key) in deleted[..i] then Excluded() else first[key])
    {
      if deleted[i].Some? {
        overrides := overrides[deleted[i].value := Excluded()];
      }
    }
    assert deleted[..|deleted|] == deleted;
    forall key
      ensures OverrideAt(base, modified, deleted, full, key) == if key in overrides then Some(overrides[key]) else None
    {
      DeletionsFirst(base, modified, deleted, full, key);
    }
    r := if overrides == map[] then None else Some(overrides);
  }

  lemma NothingModified(base: Event, full: seq<(string, Event)>)
    ensures forall key :: OverrideAt(base, [], [], full, key) == None
  {
  }

  lemma LastModification(base: Event, modified: seq<Modified>, i: nat, full: seq<(string, Event)>, key: string)
    requires i < |modified|
    ensures OverrideAt(base, modified[..i + 1], [], full, key)
      == if modified[i].key == Some(key) then Some(OverrideFor(modified[i], key, base, full))
         else OverrideAt(base, modified[..i], [], full, key)
  {
    hide OverrideFor;
    assert modified[..i + 1][..i] == modified[..i];
  }

  lemma OverrideForIs(m: Modified, key: string, base: Event, full: seq<(string, Event)>)
    ensures OverrideFor(m, key, base, full)
      == match FullEvent(m.itemId, full) case Some(occ) => Patch(occ, base, key) case None => m.timePatch
  {
  }

  lemma {:induction false} DeletionsFirst(base: Event, modified: seq<Modified>, deleted: seq<Option<string>>,
      full: seq<(string, Event)>, key: string)
    ensures OverrideAt(base, modified, deleted, full, key)
      == if Some(key) in deleted then Some(Excluded()) else OverrideAt(base, modified, [], full, key)
  {
    if modified != [] {
      DeletionsFirst(base, modified[..|modified| - 1], deleted, full, key);
    }
  }
}
