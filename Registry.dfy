/** The parser registry of the management dashboard (parser_utils.py): a
    dictionary from parser name to a five-field record, kept in
    `st.session_state['parsers']`. A form adds a parser after trimming and
    checking its fields, a button deletes one, and the listing numbers each
    parser by how many parsers share its app id. */
module Registry {
  import opened Text

  /** The record stored under a parser's name. */
  datatype ParserConfig = ParserConfig(
    apiKey: string,
    parserAppId: string,
    extraAccuracy: bool,
    expectedResponse: string,
    sampleCurl: string)

  /** The raw values of the "Add a New Parser" form. */
  datatype Form = Form(
    name: string,
    apiKey: string,
    parserAppId: string,
    extraAccuracy: bool,
    expectedResponse: string,
    sampleCurl: string)

  /** Which of the three branches a submitted form takes. */
  datatype AddOutcome = MissingRequiredFields | AlreadyExists | Added

  /** The dictionary as a value: its keys in insertion order (the order in
      which `items()` visits them) and the name-to-record map. */
  datatype ParserTable = ParserTable(names: seq<string>, parsers: map<string, ParserConfig>)

  /** The order lists every key exactly once. */
  predicate WellFormed(r: ParserTable)
  {
    && Distinct(r.names)
    && (forall n :: n in r.names ==> n in r.parsers)
    && (forall n :: n in r.parsers ==> n in r.names)
  }

  /** The empty registry: what the dashboard starts with when no saved file
      exists. */
  const Empty := ParserTable([], map[])

  /** A sequence with every occurrence of `name` taken out. */
  function Without(names: seq<string>, name: string): (r: seq<string>)
    ensures forall x :: x in r <==> x in names && x != name
  {
    if names == [] then []
    else
      var rest := Without(names[..|names| - 1], name);
      var last := names[|names| - 1];
      assert forall x :: x in names <==> x in names[..|names| - 1] || x == last;
      if last == name then rest else rest + [last]
  }

  /** The registry after a submitted form: all three fields must be
      non-empty once trimmed, the trimmed name must be new, and then one
      record is inserted under it. */
  function Add(r: ParserTable, f: Form): (AddOutcome, ParserTable)
  {
    var name := Strip(f.name);
    var apiKey := Strip(f.apiKey);
    var appId := Strip(f.parserAppId);
    if name == [] || apiKey == [] || appId == [] then (MissingRequiredFields, r)
    else if name in r.parsers then (AlreadyExists, r)
    else
      var config := ParserConfig(apiKey, appId, f.extraAccuracy, f.expectedResponse, f.sampleCurl);
      (Added, ParserTable(r.names + [name], r.parsers[name := config]))
  }

  /** The registry after `del parsers[name]`. */
  function Delete(r: ParserTable, name: string): ParserTable
    requires name in r.parsers
  {
    ParserTable(Without(r.names, name), r.parsers - {name})
  }

  /** The app ids of the parsers, in the order the listing visits them. */
  function AppIds(r: ParserTable): (ids: seq<string>)
    requires WellFormed(r)
    ensures |ids| == |r.names|
    ensures forall i :: 0 <= i < |ids| ==> ids[i] == r.parsers[r.names[i]].parserAppId
  {
    seq(|r.names|, i requires 0 <= i < |r.names| && WellFormed(r) => r.parsers[r.names[i]].parserAppId)
  }

  /** The `app_id_count` dictionary built over `ids` in order: one more for
      an id already seen, 1 for a new one. */
  function Tally(ids: seq<string>): map<string, nat>
  {
    if ids == [] then map[]
    else
      var counts := Tally(ids[..|ids| - 1]);
      var id := ids[|ids| - 1];
      if id in counts then counts[id := counts[id] + 1] else counts[id := 1]
  }

  /** The sum of the values of a map. */
  ghost function MapSum(m: map<string, nat>): nat
    decreases |m.Keys|
  {
    if m == map[] then 0
    else
      var k :| k in m;
      m[k] + MapSum(m - {k})
  }

  /** A rejected form leaves the registry as it was. A form is rejected for
      missing fields exactly when its name, API key or app id is all
      whitespace, and as a duplicate exactly when the fields are present and
      the trimmed name is already registered. */
  lemma AddRejects(r: ParserTable, f: Form)
    ensures Add(r, f).0 == MissingRequiredFields <==>
              || (forall k :: 0 <= k < |f.name| ==> IsSpace(f.name[k]))
              || (forall k :: 0 <= k < |f.apiKey| ==> IsSpace(f.apiKey[k]))
              || (forall k :: 0 <= k < |f.parserAppId| ==> IsSpace(f.parserAppId[k]))
    ensures Add(r, f).0 == AlreadyExists <==> Add(r, f).0 != MissingRequiredFields && Strip(f.name) in r.parsers
    ensures Add(r, f).0 != Added ==> Add(r, f).1 == r
  {
    StripEmptyIffBlank(f.name);
    StripEmptyIffBlank(f.apiKey);
    StripEmptyIffBlank(f.parserAppId);
  }

  /** A successful add inserts exactly one new key, the trimmed name, whose
      record holds the trimmed key and app id and the other three form
      values; every other entry is unchanged and the order stays a list of
      the keys. */
  lemma AddInsertsOne(r: ParserTable, f: Form)
    requires WellFormed(r)
    requires Add(r, f).0 == Added
    ensures var r' := Add(r, f).1;
      && Strip(f.name) !in r.parsers
      && r'.parsers.Keys == r.parsers.Keys + {Strip(f.name)}
      && r'.parsers[Strip(f.name)] == ParserConfig(Strip(f.apiKey), Strip(f.parserAppId), f.extraAccuracy, f.expectedResponse, f.sampleCurl)
      && (forall n :: n in r.parsers ==> r'.parsers[n] == r.parsers[n])
      && WellFormed(r')
  {
    var r' := Add(r, f).1;
    var name := Strip(f.name);
    assert r'.names == r.names + [name];
    forall i, j | 0 <= i < j < |r'.names|
      ensures r'.names[i] != r'.names[j]
    {
      if j == |r.names| {
        assert r'.names[i] == r.names[i] && r.names[i] in r.names;
      }
    }
  }

  /** Delete removes exactly the named entry, leaves every other entry as it
      was, and keeps the order a list of the keys. */
  lemma DeleteRemovesOne(r: ParserTable, name: string)
    requires WellFormed(r) && name in r.parsers
    ensures var r' := Delete(r, name);
      && r'.parsers.Keys == r.parsers.Keys - {name}
      && (forall n :: n in r'.parsers ==> r'.parsers[n] == r.parsers[n])
      && WellFormed(r')
  {
    WithoutDistinct(r.names, name);
  }

  predicate Distinct(s: seq<string>)
  {
    forall i, j :: 0 <= i < j < |s| ==> s[i] != s[j]
  }

  /** `Without` keeps a duplicate-free sequence duplicate-free. */
  lemma {:induction false} WithoutDistinct(names: seq<string>, name: string)
    requires Distinct(names)
    ensures Distinct(Without(names, name))
  {
    if names != [] {
      var init := names[..|names| - 1];
      var last := names[|names| - 1];
      assert Distinct(init) by {
        forall i, j | 0 <= i < j < |init| ensures init[i] != init[j] {
          assert init[i] == names[i] && init[j] == names[j];
        }
      }
      WithoutDistinct(init, name);
      var rest := Without(init, name);
      if last != name {
        assert last !in init by {
          forall i | 0 <= i < |init| ensures init[i] != last {
            assert init[i] == names[i];
          }
        }
        var r := rest + [last];
        assert Without(names, name) == r;
        forall i, j | 0 <= i < j < |r|
          ensures r[i] != r[j]
        {
          assert r[i] == rest[i] && rest[i] in rest;
          assert rest[i] in init;
          if j < |rest| {
            assert r[j] == rest[j];
          }
        }
      } else {
        assert Without(names, name) == rest;
      }
    }
  }

  /** `Without` takes out nothing from a sequence that lacks the name. */
  lemma {:induction false} WithoutAbsent(names: seq<string>, name: string)
    requires name !in names
    ensures Without(names, name) == names
  {
    if names != [] {
      var init := names[..|names| - 1];
      assert name !in init;
      WithoutAbsent(init, name);
      assert init + [names[|names| - 1]] == names;
    }
  }

  /** Deleting the parser just added gives back the registry as it was. */
  lemma DeleteUndoesAdd(r: ParserTable, f: Form)
    requires WellFormed(r)
    requires Add(r, f).0 == Added
    ensures Strip(f.name) in Add(r, f).1.parsers
    ensures Delete(Add(r, f).1, Strip(f.name)) == r
  {
    var name := Strip(f.name);
    var r' := Add(r, f).1;
    assert name !in r.names;
    WithoutAbsent(r.names, name);
    assert r'.names[..|r'.names| - 1] == r.names;
    assert r'.parsers - {name} == r.parsers;
  }

  /** `app_id_count` has a key for every app id in the registry and no
      other, and its value for an id is the number of parsers carrying
      that id. */
  lemma {:induction false} TallyCounts(ids: seq<string>)
    ensures forall id :: id in Tally(ids) <==> id in ids
    ensures forall id :: id in Tally(ids) ==> Tally(ids)[id] == multiset(ids)[id]
  {
    if ids != [] {
      var init := ids[..|ids| - 1];
      var last := ids[|ids| - 1];
      TallyCounts(init);
      assert ids == init + [last];
      assert multiset(ids) == multiset(init) + multiset{last};
    }
  }

  /** The sum of a map is any one value plus the sum of the rest, whichever
      key is taken out first. */
  lemma {:induction false} MapSumRemove(m: map<string, nat>, k: string)
    requires k in m
    ensures MapSum(m) == m[k] + MapSum(m - {k})
    decreases |m.Keys|
  {
    var k' :| k' in m && MapSum(m) == m[k'] + MapSum(m - {k'});
    if k' != k {
      MapSumRemove(m - {k'}, k);
      MapSumRemove(m - {k}, k');
      assert m - {k'} - {k} == m - {k} - {k'};
    }
  }

  /** The counts add up to the number of parsers. */
  lemma {:induction false} TallySum(ids: seq<string>)
    ensures MapSum(Tally(ids)) == |ids|
  {
    if ids != [] {
      var init := ids[..|ids| - 1];
      var id := ids[|ids| - 1];
      var m := Tally(init);
      TallySum(init);
      if id in m {
        MapSumRemove(m[id := m[id] + 1], id);
        MapSumRemove(m, id);
        assert m[id := m[id] + 1] - {id} == m - {id};
      } else {
        MapSumRemove(m[id := 1], id);
        assert m[id := 1] - {id} == m;
      }
    }
  }

  /** The link id of a parser (`app_id_count[details['parser_app_id']]`):
      the number of registered parsers with the same app id, so at least
      1. */
  function LinkId(r: ParserTable, name: string): (id: nat)
    requires WellFormed(r) && name in r.parsers
    ensures id == multiset(AppIds(r))[r.parsers[name].parserAppId]
    ensures id >= 1
  {
    var ids := AppIds(r);
    TallyCounts(ids);
    var i :| 0 <= i < |r.names| && r.names[i] == name;
    assert ids[i] == r.parsers[name].parserAppId;
    Tally(ids)[r.parsers[name].parserAppId]
  }

  /** A value at two different positions occurs at least twice. */
  lemma {:induction false} TwoPositions(s: seq<string>, i: nat, j: nat)
    requires i < j < |s| && s[i] == s[j]
    ensures multiset(s)[s[i]] >= 2
  {
    var t := s[..|s| - 1];
    assert s == t + [s[|s| - 1]];
    if j < |s| - 1 {
      TwoPositions(t, i, j);
      assert t[i] == s[i];
    } else {
      assert t[i] == s[i] && t[i] in t;
    }
  }

  /** Parsers that share an app id share a link id: the id counts them
      rather than telling them apart. */
  lemma SharedAppIdSharesLinkId(r: ParserTable, a: string, b: string)
    requires WellFormed(r) && a in r.parsers && b in r.parsers && a != b
    requires r.parsers[a].parserAppId == r.parsers[b].parserAppId
    ensures LinkId(r, a) == LinkId(r, b) >= 2
  {
    var ids := AppIds(r);
    var i :| 0 <= i < |r.names| && r.names[i] == a;
    var j :| 0 <= j < |r.names| && r.names[j] == b;
    if i < j {
      TwoPositions(ids, i, j);
    } else {
      TwoPositions(ids, j, i);
    }
  }

  /** A successful add counts its app id once more and changes no other
      count. */
  lemma AddCountsAppId(r: ParserTable, f: Form)
    requires WellFormed(r) && Add(r, f).0 == Added
    ensures WellFormed(Add(r, f).1)
    ensures multiset(AppIds(Add(r, f).1)) == multiset(AppIds(r)) + multiset{Strip(f.parserAppId)}
  {
    AddInsertsOne(r, f);
    var r' := Add(r, f).1;
    assert AppIds(r') == AppIds(r) + [Strip(f.parserAppId)];
  }

  /** `st.session_state['parsers']` with the order its keys were inserted
      in. */
  class ParserStore {
    var names: seq<string>
    var parsers: map<string, ParserConfig>

    function State(): ParserTable
      reads this
    {
      ParserTable(names, parsers)
    }

    /** The key order lists every registered name exactly once. */
    predicate Valid()
      reads this
    {
      WellFormed(State())
    }

    constructor()
      ensures Valid() && State() == Empty
    {
      names := [];
      parsers := map[];
    }

    /** `add_new_parser` after the form is submitted: trims the three
        required fields, reports which branch was taken and, on success,
        inserts the record in place. */
    method AddNewParser(f: Form) returns (outcome: AddOutcome)
      requires Valid()
      modifies this
      ensures Valid()
      ensures (outcome, State()) == Add(old(State()), f)
    {
      ghost var before := State();
      var name := Strip(f.name);
      var apiKey := Strip(f.apiKey);
      var appId := Strip(f.parserAppId);
      if name == [] || apiKey == [] || appId == [] {
        outcome := MissingRequiredFields;
      } else if name in parsers {
        outcome := AlreadyExists;
      } else {
        parsers := parsers[name := ParserConfig(apiKey, appId, f.extraAccuracy, f.expectedResponse, f.sampleCurl)];
        names := names + [name];
        outcome := Added;
        AddInsertsOne(before, f);
      }
    }

    /** The "Delete" button of a listed parser: `del parsers[name]`. */
    method DeleteParser(name: string)
      requires Valid() && name in parsers
      modifies this
      ensures Valid()
      ensures State() == Delete(old(State()), name)
    {
      DeleteRemovesOne(State(), name);
      parsers := parsers - {name};
      names := Without(names, name);
    }

    /** The `app_id_count` loop of `list_parsers`. */
    method AppIdCounts() returns (counts: map<string, nat>)
      requires Valid()
      ensures counts == Tally(AppIds(State()))
    {
      ghost var ids := AppIds(State());
      counts := map[];
      for i := 0 to |names|
        invariant counts == Tally(ids[..i])
      {
        var appId := parsers[names[i]].parserAppId;
        assert ids[..i + 1][..i] == ids[..i];
        if appId in counts {
          counts := counts[appId := counts[appId] + 1];
        } else {
          counts := counts[appId := 1];
        }
      }
      assert ids[..|names|] == ids;
    }
  }

  /** Trimming makes a padded name collide with a registered one. */
  lemma PaddedDuplicateExample()
    ensures Add(ParserTable(["A"], map["A" := ParserConfig("k", "7", false, "", "")]),
                Form(" A", "k", "7", true, "", "")).0 == AlreadyExists
  {
    assert LeadingSpaces(" A") == 1;
    assert TrailingSpaces(" A") == 0;
    assert Strip(" A") == "A";
    assert LeadingSpaces("k") == 0 && TrailingSpaces("k") == 0;
    assert LeadingSpaces("7") == 0 && TrailingSpaces("7") == 0;
  }
}
