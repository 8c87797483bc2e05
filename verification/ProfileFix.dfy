/** Moving implicit profiles `[name]` to `[profile.name]` in a foundry.toml document
    (config/src/fix.rs). A document is a map from top-level keys; tables and inline tables are both
    "table-like". */
module ProfileFix {
  import opened Bytes

  type Key = string

  datatype Item = TableLike(entries: map<Key, Item>) | Other(value: int)

  type Doc = map<Key, Item>

  const PROFILE: Key := "profile"
  const STANDALONE: set<Key> := {"rpc_endpoints", "etherscan", "fmt", "doc", "fuzz", "invariant"}

  datatype InsertError = ValueNotTable | ProfileNotTable | AlreadyExists | ExistingNotTable

  predicate IsImplicitProfile(doc: Doc, k: Key) {
    k in doc && k != PROFILE && k !in STANDALONE
  }

  /** The entries of `[profile]`; none if the section is missing or no table. */
  function Profiles(doc: Doc): (entries: map<Key, Item>)
  {
    if PROFILE in doc && doc[PROFILE].TableLike? then doc[PROFILE].entries else map[]
  }

  /** Why a value cannot become `[profile.name]`, if it cannot. */
  function Refusal(doc: Doc, name: Key, value: Item): (e: Option<InsertError>)
  {
    if !value.TableLike? then Some(ValueNotTable)
    else if PROFILE in doc && !doc[PROFILE].TableLike? then Some(ProfileNotTable)
    else if name in Profiles(doc) && !Profiles(doc)[name].TableLike? then Some(ExistingNotTable)
    else if name in Profiles(doc) && Profiles(doc)[name].entries != map[] then Some(AlreadyExists)
    else None
  }

  // ----- the fixed document, all profiles at once -----

  predicate Moves(doc: Doc, k: Key) {
    IsImplicitProfile(doc, k) && Refusal(doc, k, doc[k]).None?
  }

  /** The document after the keys in `done` have been dealt with. */
  function FixedFor(doc: Doc, done: set<Key>): (fixed: Doc)
  {
    var moved := set k | k in done && Moves(doc, k);
    if moved == {} then doc
    else (doc - moved)[PROFILE := TableLike(Profiles(doc) + map k | k in moved && k in doc :: doc[k])]
  }

  function Fixed(doc: Doc): (fixed: Doc)
  {
    FixedFor(doc, doc.Keys)
  }

  /** Nothing is lost and nothing is invented: a profile that is not refused is under `[profile]`
      with its value and no longer at the top; a refused one is where it was; standalone sections
      are untouched; and of the profiles that were there, only an empty one can be replaced. */
  lemma FixLosesNothing(doc: Doc, k: Key)
    ensures IsImplicitProfile(doc, k) && Refusal(doc, k, doc[k]).None? ==>
              k !in Fixed(doc) && k in Profiles(Fixed(doc)) && Profiles(Fixed(doc))[k] == doc[k]
    ensures IsImplicitProfile(doc, k) && Refusal(doc, k, doc[k]).Some? ==>
              k in Fixed(doc) && Fixed(doc)[k] == doc[k]
    ensures k in STANDALONE ==> (k in Fixed(doc) <==> k in doc) && (k in doc ==> Fixed(doc)[k] == doc[k])
    ensures k in Fixed(doc) ==> k in doc || k == PROFILE
    ensures k in Profiles(doc) ==>
              && k in Profiles(Fixed(doc))
              && (Profiles(Fixed(doc))[k] == Profiles(doc)[k] ||
                  (Moves(doc, k) && Profiles(doc)[k] == TableLike(map[])))
    ensures k in Profiles(Fixed(doc)) ==> k in Profiles(doc) || Moves(doc, k)
    ensures PROFILE in doc && !doc[PROFILE].TableLike? ==> Fixed(doc) == doc
  {
    var moved := set k | k in doc.Keys && Moves(doc, k);
    assert Moves(doc, k) ==> k in moved;
    if PROFILE in doc && !doc[PROFILE].TableLike? {
      assert forall k :: k in doc.Keys ==> !Moves(doc, k);
      assert moved == {};
    }
  }

  /** What is left after a fix is refused again, for the same reason. */
  lemma RefusalsPersist(doc: Doc, k: Key)
    requires IsImplicitProfile(Fixed(doc), k)
    ensures IsImplicitProfile(doc, k) && Fixed(doc)[k] == doc[k]
    ensures Refusal(doc, k, doc[k]).Some?
    ensures Refusal(Fixed(doc), k, Fixed(doc)[k]) == Refusal(doc, k, doc[k])
  {
    var moved := set k | k in doc.Keys && Moves(doc, k);
    assert k in doc && k !in moved;
  }

  /** A second run changes nothing and reports only errors. */
  lemma SecondFixIsIdle(doc: Doc)
    ensures Fixed(Fixed(doc)) == Fixed(doc)
    ensures forall k :: IsImplicitProfile(Fixed(doc), k) ==> Refusal(Fixed(doc), k, Fixed(doc)[k]).Some?
  {
    forall k | IsImplicitProfile(Fixed(doc), k) ensures Refusal(Fixed(doc), k, Fixed(doc)[k]).Some? {
      RefusalsPersist(doc, k);
    }
    var moved := set k | k in Fixed(doc).Keys && Moves(Fixed(doc), k);
    assert moved == {};
  }

  // ----- one profile at a time -----

  /** While other profiles are dealt with, this one keeps its value and its verdict. */
  lemma UndoneIsUntouched(doc: Doc, done: set<Key>, k: Key)
    requires IsImplicitProfile(doc, k) && k !in done
    ensures var now := FixedFor(doc, done);
            && k in now && now[k] == doc[k]
            && Refusal(now - {k}, k, doc[k]) == Refusal(doc, k, doc[k])
  {
  }

  lemma RefusedStep(doc: Doc, done: set<Key>, k: Key)
    requires !Moves(doc, k)
    ensures FixedFor(doc, done + {k}) == FixedFor(doc, done)
  {
    assert (set j | j in done + {k} && Moves(doc, j)) == (set j | j in done && Moves(doc, j));
  }

  lemma MovedStep(doc: Doc, done: set<Key>, k: Key)
    requires Moves(doc, k) && k !in done
    ensures var now := FixedFor(doc, done) - {k};
            FixedFor(doc, done + {k}) == now[PROFILE := TableLike(Profiles(now)[k := doc[k]])]
  {
    var moved := set j | j in done && Moves(doc, j);
    var moved' := set j | j in done + {k} && Moves(doc, j);
    assert moved' == moved + {k};
    MovedEntries(doc, moved, k);
    var now := FixedFor(doc, done) - {k};
    assert PROFILE !in moved';
    assert doc - moved' - {PROFILE} == now - {PROFILE};
    SetSection(doc - moved', now, TableLike(Profiles(now)[k := doc[k]]));
  }

  lemma SetSection(a: Doc, b: Doc, section: Item)
    requires a - {PROFILE} == b - {PROFILE}
    ensures a[PROFILE := section] == b[PROFILE := section]
  {
    assert a[PROFILE := section] == (a - {PROFILE})[PROFILE := section];
    assert b[PROFILE := section] == (b - {PROFILE})[PROFILE := section];
  }

  lemma MovedEntries(doc: Doc, moved: set<Key>, k: Key)
    requires k in doc && k != PROFILE && k !in moved
    ensures Profiles(doc) + (map j | j in moved + {k} && j in doc :: doc[j]) ==
            (Profiles(doc) + map j | j in moved && j in doc :: doc[j])[k := doc[k]]
    ensures moved == {} ==> Profiles(doc) + (map j | j in moved && j in doc :: doc[j]) == Profiles(doc)
  {
  }

  datatype Report = Report(profile: Key, error: Option<InsertError>)

  function Verdict(doc: Doc, k: Key): (r: Report)
    requires k in doc
  {
    Report(k, Refusal(doc, k, doc[k]))
  }

  /** The keys that are implicit profiles, in the document's order. */
  function ImplicitProfiles(doc: Doc, order: seq<Key>): (names: seq<Key>)
    ensures forall k :: k in names <==> k in order && IsImplicitProfile(doc, k)
  {
    if order == [] then []
    else
      var rest := ImplicitProfiles(doc, order[1..]);
      if IsImplicitProfile(doc, order[0]) then [order[0]] + rest else rest
  }

  predicate NoDuplicates(s: seq<Key>) {
    forall i, j :: 0 <= i < j < |s| ==> s[i] != s[j]
  }

  lemma {:induction false} ImplicitProfilesDistinct(doc: Doc, order: seq<Key>)
    requires NoDuplicates(order)
    ensures NoDuplicates(ImplicitProfiles(doc, order))
  {
    if order != [] {
      ImplicitProfilesDistinct(doc, order[1..]);
      assert order[0] !in order[1..];
    }
  }

  /** a stands before b. */
  predicate Earlier(order: seq<Key>, a: Key, b: Key) {
    exists p :: 0 <= p < |order| && order[p] == a && b in order[p + 1..]
  }

  lemma EarlierBehind(order: seq<Key>, a: Key, b: Key)
    requires order != [] && Earlier(order[1..], a, b)
    ensures Earlier(order, a, b)
  {
    var p :| 0 <= p < |order[1..]| && order[1..][p] == a && b in order[1..][p + 1..];
    assert order[p + 1] == a && order[p + 2..] == order[1..][p + 1..];
  }

  lemma FirstIsEarlier(order: seq<Key>, b: Key)
    requires order != [] && b in order[1..]
    ensures Earlier(order, order[0], b)
  {
  }

  lemma {:induction false} ImplicitProfilesInOrder(doc: Doc, order: seq<Key>, i: nat, j: nat)
    requires i < j < |ImplicitProfiles(doc, order)|
    ensures var names := ImplicitProfiles(doc, order);
            Earlier(order, names[i], names[j])
    decreases |order|
  {
    var names, rest := ImplicitProfiles(doc, order), ImplicitProfiles(doc, order[1..]);
    if IsImplicitProfile(doc, order[0]) {
      assert names[j] == rest[j - 1] && names[j] in rest;
      if i == 0 {
        FirstIsEarlier(order, names[j]);
      } else {
        ImplicitProfilesInOrder(doc, order[1..], i - 1, j - 1);
        EarlierBehind(order, names[i], names[j]);
      }
    } else {
      ImplicitProfilesInOrder(doc, order[1..], i, j);
      EarlierBehind(order, names[i], names[j]);
    }
  }

  /** A report of verdicts names every implicit profile, in the document's order, with the reason why
      it is refused, if it is. */
  lemma VerdictsAreComplete(doc: Doc, order: seq<Key>, results: seq<Report>)
    requires forall k :: k in order <==> k in doc
    requires var names := ImplicitProfiles(doc, order);
             |results| == |names| && forall i :: 0 <= i < |names| ==> results[i] == Verdict(doc, names[i])
    ensures forall i :: 0 <= i < |results| ==>
              && IsImplicitProfile(doc, results[i].profile)
              && results[i].error == Refusal(doc, results[i].profile, doc[results[i].profile])
    ensures forall k :: IsImplicitProfile(doc, k) ==> exists i :: 0 <= i < |results| && results[i].profile == k
    ensures forall i, j :: 0 <= i < j < |results| ==> Earlier(order, results[i].profile, results[j].profile)
  {
    var names := ImplicitProfiles(doc, order);
    forall i, j | 0 <= i < j < |names| ensures Earlier(order, names[i], names[j]) {
      ImplicitProfilesInOrder(doc, order, i, j);
    }
    assert forall i :: 0 <= i < |results| ==> names[i] in names && results[i].profile == names[i];
    forall k | IsImplicitProfile(doc, k) ensures exists i :: 0 <= i < |results| && results[i].profile == k {
      assert k in names;
      var i :| 0 <= i < |names| && names[i] == k;
      assert results[i].profile == k;
    }
  }

  class TomlFile {
    var doc: Doc

    constructor (doc: Doc)
      ensures this.doc == doc
    {
      this.doc := doc;
    }

    /** Inserts the value as `[profile.name]`, creating `[profile]` where necessary; on a conflict
        the document stays as it is. */
    method InsertProfile(name: Key, value: Item) returns (error: Option<InsertError>)
      modifies this
      ensures error == Refusal(old(doc), name, value)
      ensures error == Some(ValueNotTable) <==> value.Other?
      ensures error == Some(ProfileNotTable) <==>
                value.TableLike? && PROFILE in old(doc) && old(doc)[PROFILE].Other?
      ensures error == Some(ExistingNotTable) <==>
                && value.TableLike? && PROFILE in old(doc) && old(doc)[PROFILE].TableLike?
                && name in old(doc)[PROFILE].entries && old(doc)[PROFILE].entries[name].Other?
      ensures error == Some(AlreadyExists) <==>
                && value.TableLike? && PROFILE in old(doc) && old(doc)[PROFILE].TableLike?
                && name in old(doc)[PROFILE].entries && old(doc)[PROFILE].entries[name].TableLike?
                && old(doc)[PROFILE].entries[name].entries != map[]
      ensures error.None? <==>
                && value.TableLike?
                && (PROFILE in old(doc) ==>
                      && old(doc)[PROFILE].TableLike?
                      && (name in old(doc)[PROFILE].entries ==>
                            old(doc)[PROFILE].entries[name] == TableLike(map[])))
      ensures error.Some? ==> doc == old(doc)
      ensures error.None? ==>
                doc == old(doc)[PROFILE := TableLike(
                         (if PROFILE in old(doc) then old(doc)[PROFILE].entries else map[])[name := value])]
    {
      if !value.TableLike? { return Some(ValueNotTable); }
      if PROFILE !in doc {
        doc := doc[PROFILE := TableLike(map[])];
      }
      var section := doc[PROFILE];
      if !section.TableLike? { return Some(ProfileNotTable); }
      if name in section.entries {
        var profile := section.entries[name];
        if profile.TableLike? {
          if profile.entries != map[] { return Some(AlreadyExists); }
        } else {
          return Some(ExistingNotTable);
        }
      }
      doc := doc[PROFILE := TableLike(section.entries[name := value])];
      return None;
    }

    /** Removes each implicit profile and inserts it under `[profile]`, or back at its key. In
        whatever order the keys come, the document becomes the fixed one, and the report gives
        each profile's own verdict. */
    method FixProfiles(order: seq<Key>) returns (results: seq<Report>)
      requires NoDuplicates(order) && forall k :: k in order <==> k in doc
      modifies this
      ensures doc == Fixed(old(doc))
      ensures var names := ImplicitProfiles(old(doc), order);
              |results| == |names| &&
              forall i :: 0 <= i < |names| ==> results[i] == Verdict(old(doc), names[i])
    {
      results := [];
      var names := ImplicitProfiles(doc, order);
      ImplicitProfilesDistinct(doc, order);
      for i := 0 to |names|
        invariant doc == FixedFor(old(doc), FirstOf(names, i))
        invariant |results| == i
        invariant forall j :: 0 <= j < i ==> results[j] == Verdict(old(doc), names[j])
      {
        FirstOfStep(names, i);
        assert names[i] in names;
        var error := FixOne(names[i], old(doc), FirstOf(names, i));
        results := results + [Report(names[i], error)];
      }
      AllDone(old(doc), order);
    }

    method FixOne(profile: Key, ghost original: Doc, ghost done: set<Key>) returns (error: Option<InsertError>)
      requires doc == FixedFor(original, done)
      requires IsImplicitProfile(original, profile) && profile !in done
      modifies this
      ensures doc == FixedFor(original, done + {profile})
      ensures error == Refusal(original, profile, original[profile])
    {
      UndoneIsUntouched(original, done, profile);
      var value := doc[profile];
      doc := doc - {profile};
      error := InsertProfile(profile, value);
      if error.Some? {
        doc := doc[profile := value];
        assert doc == old(doc);
        RefusedStep(original, done, profile);
      } else {
        MovedStep(original, done, profile);
      }
    }
  }

  ghost function FirstOf(names: seq<Key>, i: nat): (keys: set<Key>)
    requires i <= |names|
  {
    set j | 0 <= j < i :: names[j]
  }

  lemma FirstOfStep(names: seq<Key>, i: nat)
    requires NoDuplicates(names) && i < |names|
    ensures names[i] !in FirstOf(names, i) && FirstOf(names, i + 1) == FirstOf(names, i) + {names[i]}
  {
  }

  lemma AllDone(doc: Doc, order: seq<Key>)
    requires forall k :: k in order <==> k in doc
    ensures var names := ImplicitProfiles(doc, order);
            FixedFor(doc, FirstOf(names, |names|)) == Fixed(doc)
  {
    var names := ImplicitProfiles(doc, order);
    var done := FirstOf(names, |names|);
    assert forall k :: k in done <==> k in names;
    assert (set k | k in done && Moves(doc, k)) == (set k | k in doc.Keys && Moves(doc, k));
  }
}
