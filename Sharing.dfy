/**
 * The smaller helpers of main/helpers.py: picking notebook files out of a
 * member's Open Humans data, finding one by id, building the import link,
 * and suggesting data sources from the ids a notebook mentions. The remote
 * catalog of data sources is given as a map from source id to name.
 */
module Sharing {
  import opened Wrappers
  import opened Text
  import opened Sequences

  /** One entry of `oh_member_data['data']`. */
  datatype DataObject = DataObject(id: int, basename: string, downloadUrl: string, source: string)

  /** The project whose files are shared notebooks. */
  const NotebookSource: string := "direct-sharing-71"

  /**
   * `get_notebook_files`: the entries from the notebook project, each as
   * often as it occurs in the data, in their original order.
   */
  function NotebookFiles(data: seq<DataObject>): (files: seq<DataObject>)
    ensures forall x :: multiset(files)[x] == if x.source == NotebookSource then multiset(data)[x] else 0
  {
    if data == [] then []
    else
      assert data == data[..|data| - 1] + [data[|data| - 1]];
      NotebookFiles(data[..|data| - 1]) + Kept(data[|data| - 1])
  }

  /** The entry itself when it is a notebook file, else nothing. */
  function Kept(x: DataObject): seq<DataObject> {
    if x.source == NotebookSource then [x] else []
  }

  lemma NotebookFilesLast(s: seq<DataObject>)
    requires s != []
    ensures NotebookFiles(s) == NotebookFiles(s[..|s| - 1]) + Kept(s[|s| - 1])
  {
  }

  /**
   * Filtering commutes with concatenation, so the entries kept appear in
   * the order they have in the data.
   */
  lemma {:induction false} NotebookFilesAppend(a: seq<DataObject>, b: seq<DataObject>)
    ensures NotebookFiles(a + b) == NotebookFiles(a) + NotebookFiles(b)
  {
    if b == [] {
      assert a + b == a;
    } else {
      var c, init, last := a + b, b[..|b| - 1], b[|b| - 1];
      assert c[..|c| - 1] == a + init && c[|c| - 1] == last;
      calc {
        NotebookFiles(c);
        { NotebookFilesLast(c); }
        NotebookFiles(a + init) + Kept(last);
        { NotebookFilesAppend(a, init); }
        (NotebookFiles(a) + NotebookFiles(init)) + Kept(last);
        { AppendAssoc(NotebookFiles(a), NotebookFiles(init), Kept(last)); }
        NotebookFiles(a) + (NotebookFiles(init) + Kept(last));
        { NotebookFilesLast(b); }
        NotebookFiles(a) + NotebookFiles(b);
      }
    }
  }

  /**
   * `get_notebook_oh`: the basename and download URL of the first entry
   * whose `str(id)` is `notebookId`; nothing when no entry has that id.
   */
  method GetNotebookOh(data: seq<DataObject>, notebookId: string) returns (r: Option<(string, string)>)
    ensures r.None? <==> forall k :: 0 <= k < |data| ==> IntToString(data[k].id) != notebookId
    ensures r.Some? ==> exists k ::
      && 0 <= k < |data| && IntToString(data[k].id) == notebookId
      && r.value == (data[k].basename, data[k].downloadUrl)
      && forall j :: 0 <= j < k ==> IntToString(data[j].id) != notebookId
  {
    for i := 0 to |data|
      invariant forall j :: 0 <= j < i ==> IntToString(data[j].id) != notebookId
    {
      if IntToString(data[i].id) == notebookId {
        return Some((data[i].basename, data[i].downloadUrl));
      }
    }
    return None;
  }

  /** The query argument `target=voila` asks for the Voilà view. */
  function TargetSuffix(target: Option<string>): string {
    if target == Some("voila") then "&target=voila" else ""
  }

  /** The notebook server's import endpoint; the query string follows it. */
  function ImportEndpoint(hubUrl: string): string {
    hubUrl + "/notebook-import?"
  }

  /**
   * One query argument read as `key=value`: split at its first `=`. An
   * argument without `=` is a key with an empty value.
   */
  function Field(arg: string): (kv: (string, string))
    ensures '=' !in kv.0
    ensures kv.0 + (if '=' in arg then "=" else "") + kv.1 == arg
  {
    if arg == [] then ("", "")
    else if arg[0] == '=' then ("", arg[1..])
    else
      var kv := Field(arg[1..]);
      assert arg == [arg[0]] + arg[1..];
      ([arg[0]] + kv.0, kv.1)
  }

  /** A key without `=` is read back from `key=value`. */
  lemma {:induction false} FieldOf(key: string, value: string)
    requires '=' !in key
    ensures Field(key + "=" + value) == (key, value)
  {
    var arg := key + "=" + value;
    if key == [] {
      assert arg[1..] == value;
    } else {
      assert arg[1..] == key[1..] + "=" + value;
      FieldOf(key[1..], value);
      assert key == [key[0]] + key[1..];
    }
  }

  /** The arguments of a query string: its `&`-separated parts, each read by `Field`. */
  function Params(query: string): seq<(string, string)> {
    Fields(Split(query, '&'))
  }

  function Fields(parts: seq<string>): (kvs: seq<(string, string)>)
    ensures |kvs| == |parts|
  {
    seq(|parts|, i requires 0 <= i < |parts| => Field(parts[i]))
  }

  lemma FieldsAppend(a: seq<string>, b: seq<string>)
    ensures Fields(a + b) == Fields(a) + Fields(b)
  {
    forall i | 0 <= i < |a| + |b| ensures Fields(a + b)[i] == (Fields(a) + Fields(b))[i] {
      if i < |a| {
        assert (a + b)[i] == a[i];
      } else {
        assert (a + b)[i] == b[i - |a|];
      }
    }
  }

  lemma ParamsOne(arg: string)
    requires '&' !in arg
    ensures Params(arg) == [Field(arg)]
  {
    SplitNoSep(arg, '&');
  }

  lemma ParamsJoin(a: string, b: string)
    ensures Params(a + "&" + b) == Params(a) + Params(b)
  {
    SplitAround(a, b, '&');
    FieldsAppend(Split(a, '&'), Split(b, '&'));
  }

  lemma TwoParams(x: string, y: string)
    requires '&' !in x && '&' !in y
    ensures Params(x + "&" + y) == [Field(x), Field(y)]
  {
    ParamsJoin(x, y);
    ParamsOne(x);
    ParamsOne(y);
    Displays(Field(x), Field(y), Field(y));
  }

  lemma ThreeParams(x: string, y: string, z: string)
    requires '&' !in x && '&' !in y && '&' !in z
    ensures Params(x + "&" + (y + "&" + z)) == [Field(x), Field(y), Field(z)]
  {
    ParamsJoin(x, y + "&" + z);
    ParamsOne(x);
    TwoParams(y, z);
    Displays(Field(x), Field(y), Field(z));
  }

  /** The query string of `create_notebook_link`, after the `?`. */
  function ImportQuery(location: string, name: string, target: Option<string>): string {
    "notebook_location=" + location + "&notebook_name=" + name + TargetSuffix(target)
  }

  /** The arguments the notebook server reads from the query, when no value holds a `&`. */
  function ExpectedParams(location: string, name: string, target: Option<string>): seq<(string, string)> {
    if target == Some("voila")
    then [("notebook_location", location), ("notebook_name", name), ("target", "voila")]
    else [("notebook_location", location), ("notebook_name", name)]
  }

  /** The separators in the fixed texts of the query are the ones written as separate pieces. */
  lemma SeparatorTexts()
    ensures "&notebook_name=" == "&" + "notebook_name=" && "&target=voila" == "&" + "target=voila"
  {
  }

  lemma NotInAppend(c: char, x: string, y: string)
    requires c !in x && c !in y
    ensures c !in x + y
  {
  }

  /** The two keys of the query hold no `=` and no `&`, and are written followed by `=`. */
  lemma QueryKeys()
    ensures "notebook_location=" == "notebook_location" + "=" && '=' !in "notebook_location" && '&' !in "notebook_location"
    ensures "notebook_name=" == "notebook_name" + "=" && '=' !in "notebook_name" && '&' !in "notebook_name"
  {
  }

  /**
   * An argument written as `prefix + value`, where `prefix` is a key
   * followed by `=`, reads back as that key and value.
   */
  lemma KeyArg(key: string, prefix: string, value: string)
    requires prefix == key + "=" && '=' !in key && '&' !in key && '&' !in value
    ensures '&' !in prefix + value
    ensures Field(prefix + value) == (key, value)
  {
    NotInAppend('&', prefix, value);
    FieldOf(key, value);
  }

  lemma TargetArg()
    ensures '&' !in "target=voila" && Field("target=voila") == ("target", "voila")
  {
    assert '&' !in "target=voila" && '=' !in "target";
    assert "target" + "=" + "voila" == "target=voila";
    FieldOf("target", "voila");
  }

  /**
   * The regrouping of the query string's pieces (the two key prefixes
   * `p1` and `p2`, the values `l` and `n`, the separator `a` and the
   * optional tail `p3`) into arguments joined by the separator.
   */
  lemma RegroupQuery(p1: string, l: string, a: string, p2: string, n: string, p3: string)
    ensures p1 + l + (a + p2) + n + (a + p3) == (p1 + l) + a + ((p2 + n) + a + p3)
    ensures p1 + l + (a + p2) + n + [] == (p1 + l) + a + (p2 + n)
  {
  }

  /** The query string is its arguments joined by `&`. */
  lemma QueryText(location: string, name: string, target: Option<string>)
    ensures var first, second := "notebook_location=" + location, "notebook_name=" + name;
      ImportQuery(location, name, target) ==
        if target == Some("voila") then first + "&" + (second + "&" + "target=voila")
        else first + "&" + second
  {
    SeparatorTexts();
    if target == Some("voila") {
      RegroupQuery("notebook_location=", location, "&", "notebook_name=", name, "target=voila");
    } else {
      RegroupQuery("notebook_location=", location, "&", "notebook_name=", name, "");
    }
  }

  lemma QueryParams(location: string, name: string, target: Option<string>)
    requires '&' !in location && '&' !in name
    ensures Params(ImportQuery(location, name, target)) == ExpectedParams(location, name, target)
  {
    QueryKeys();
    KeyArg("notebook_location", "notebook_location=", location);
    KeyArg("notebook_name", "notebook_name=", name);
    QueryText(location, name, target);
    if target == Some("voila") {
      TargetArg();
      ThreeParams("notebook_location=" + location, "notebook_name=" + name, "target=voila");
    } else {
      TwoParams("notebook_location=" + location, "notebook_name=" + name);
    }
  }

  /**
   * `create_notebook_link`: the notebook server's import endpoint followed
   * by a query string. When neither the location (this site's root URL
   * without trailing slashes, then the export path) nor the name contains
   * `&`, the server reads exactly three arguments from it, or two:
   * `notebook_location`, `notebook_name`, and `target=voila` only when the
   * request asked for Voilà. `target` is the request's `target` argument.
   */
  function NotebookLink(hubUrl: string, siteRoot: string, exportPath: string,
                        name: string, target: Option<string>): (link: string)
    ensures ImportEndpoint(hubUrl) <= link
  {
    ImportEndpoint(hubUrl) + ImportQuery(RStrip(siteRoot, '/') + exportPath, name, target)
  }

  /**
   * The arguments the notebook server reads from the link: when neither
   * the location nor the name contains `&`, exactly `notebook_location`,
   * `notebook_name`, and `target=voila` only for a Voilà request.
   */
  lemma LinkParams(hubUrl: string, siteRoot: string, exportPath: string,
                   name: string, target: Option<string>)
    ensures var location := RStrip(siteRoot, '/') + exportPath;
      '&' !in location && '&' !in name ==>
        Params(NotebookLink(hubUrl, siteRoot, exportPath, name, target)[|ImportEndpoint(hubUrl)|..]) ==
          ExpectedParams(location, name, target)
  {
    var location := RStrip(siteRoot, '/') + exportPath;
    LinkQuery(hubUrl, siteRoot, exportPath, name, target);
    if '&' !in location && '&' !in name {
      QueryParams(location, name, target);
    }
  }

  /**
   * Nothing in the link is URL-encoded, so a `&` in a notebook's name ends
   * the `notebook_name` argument early and starts an extra argument.
   */
  lemma NameWithAmpersand(hubUrl: string, siteRoot: string, exportPath: string,
                          first: string, second: string)
    requires '&' !in RStrip(siteRoot, '/') + exportPath && '&' !in first && '&' !in second
    ensures Params(NotebookLink(hubUrl, siteRoot, exportPath, first + "&" + second, None)
                     [|ImportEndpoint(hubUrl)|..]) ==
      [("notebook_location", RStrip(siteRoot, '/') + exportPath), ("notebook_name", first), Field(second)]
  {
    var location := RStrip(siteRoot, '/') + exportPath;
    QueryKeys();
    KeyArg("notebook_location", "notebook_location=", location);
    KeyArg("notebook_name", "notebook_name=", first);
    LinkQuery(hubUrl, siteRoot, exportPath, first + "&" + second, None);
    AmpersandQuery(location, first, second);
    ThreeParams("notebook_location=" + location, "notebook_name=" + first, second);
  }

  /** What follows the import endpoint in the link is the query string. */
  lemma LinkQuery(hubUrl: string, siteRoot: string, exportPath: string,
                  name: string, target: Option<string>)
    ensures NotebookLink(hubUrl, siteRoot, exportPath, name, target)[|ImportEndpoint(hubUrl)|..] ==
      ImportQuery(RStrip(siteRoot, '/') + exportPath, name, target)
  {
    AfterPrefix(ImportEndpoint(hubUrl), ImportQuery(RStrip(siteRoot, '/') + exportPath, name, target));
  }

  lemma AmpersandQuery(location: string, first: string, second: string)
    ensures ImportQuery(location, first + "&" + second, None) ==
      ("notebook_location=" + location) + "&" + (("notebook_name=" + first) + "&" + second)
  {
    SeparatorTexts();
    RegroupQuery("notebook_location=", location, "&", "notebook_name=", first, "");
  }

  /** The fixed part of a data-source id. */
  const SourcePrefix: string := "direct-sharing-"

  /** A match of the pattern `direct-sharing-\d+`. */
  predicate IsSourceId(x: string) {
    && |x| > |SourcePrefix|
    && SourcePrefix <= x
    && forall i :: |SourcePrefix| <= i < |x| ==> IsDigit(x[i])
  }

  /** Length of the run of digits at the start of `s`. */
  function DigitRun(s: string): (n: nat)
    ensures n <= |s|
    ensures forall i :: 0 <= i < n ==> IsDigit(s[i])
    ensures n < |s| ==> !IsDigit(s[n])
  {
    if s == [] || !IsDigit(s[0]) then 0 else 1 + DigitRun(s[1..])
  }

  /** Length of the (greedy) match of the pattern at the start of `s`, 0 if none. */
  function MatchAt(s: string): (n: nat)
    ensures n == 0 || (n <= |s| && IsSourceId(s[..n]))
  {
    if SourcePrefix <= s && DigitRun(s[|SourcePrefix|..]) > 0
    then |SourcePrefix| + DigitRun(s[|SourcePrefix|..])
    else 0
  }

  /** Some position of `s` starts the prefix followed by a digit. */
  predicate MentionsSource(s: string) {
    s != [] && (MatchAt(s) > 0 || MentionsSource(s[1..]))
  }

  /**
   * `re.findall("direct-sharing-\d+", s)`: the non-overlapping matches,
   * left to right, each as long as possible.
   */
  function FindSourceIds(s: string): (ids: seq<string>)
    ensures forall k :: 0 <= k < |ids| ==> IsSourceId(ids[k])
  {
    ScanElements(s, MatchAt, IsSourceId);
    Scan(s, MatchAt)
  }

  /** One step of the scan: take the match at the front and skip it, or skip one character. */
  lemma FindStep(s: string)
    requires s != []
    ensures var n := MatchAt(s);
      FindSourceIds(s) == if n > 0 then [s[..n]] + FindSourceIds(s[n..]) else FindSourceIds(s[1..])
  {
  }

  lemma {:induction false} ContainsInSuffix(s: string, m: nat, x: string)
    requires m <= |s|
    requires Contains(s[m..], x)
    ensures Contains(s, x)
  {
    if m > 0 {
      assert s[1..][m - 1..] == s[m..];
      ContainsInSuffix(s[1..], m - 1, x);
    }
  }

  /**
   * Every id found is the whole, longest match starting at some position
   * of the text, so it occurs in the text; ids are found exactly when the
   * text mentions one.
   */
  lemma FindSourceIdsSound(s: string)
    ensures forall k :: 0 <= k < |FindSourceIds(s)| ==> MatchedAt(s, MatchAt, FindSourceIds(s)[k])
    ensures forall k :: 0 <= k < |FindSourceIds(s)| ==> Contains(s, FindSourceIds(s)[k])
    ensures FindSourceIds(s) == [] <==> !MentionsSource(s)
  {
    FindSourceIdsAtPositions(s);
    FindSourceIdsInText(s);
  }

  /** Every id found is the whole match starting at some position of the text. */
  lemma FindSourceIdsAtPositions(s: string)
    ensures forall k :: 0 <= k < |FindSourceIds(s)| ==> MatchedAt(s, MatchAt, FindSourceIds(s)[k])
  {
    ScanAtPositions(s, MatchAt);
    assert FindSourceIds(s) == Scan(s, MatchAt);
  }

  /** Every id found occurs in the text, and ids are found exactly when the text mentions one. */
  lemma {:induction false} FindSourceIdsInText(s: string)
    ensures forall k :: 0 <= k < |FindSourceIds(s)| ==> Contains(s, FindSourceIds(s)[k])
    ensures FindSourceIds(s) == [] <==> !MentionsSource(s)
    decreases |s|
  {
    if s != [] {
      var n := MatchAt(s);
      if n > 0 {
        var rest := s[n..];
        assert FindSourceIds(s) == [s[..n]] + FindSourceIds(rest) by {
          FindStep(s);
        }
        FindSourceIdsInText(rest);
        forall k | 0 <= k < |FindSourceIds(s)| ensures Contains(s, FindSourceIds(s)[k]) {
          if k == 0 {
            assert s[..n] <= s;
          } else {
            assert FindSourceIds(s)[k] == FindSourceIds(rest)[k - 1];
            ContainsInSuffix(s, n, FindSourceIds(rest)[k - 1]);
          }
        }
      } else {
        assert FindSourceIds(s) == FindSourceIds(s[1..]) by {
          FindStep(s);
        }
        FindSourceIdsInText(s[1..]);
        forall k | 0 <= k < |FindSourceIds(s)| ensures Contains(s, FindSourceIds(s)[k]) {
          ContainsInSuffix(s, 1, FindSourceIds(s)[k]);
        }
      }
    }
  }

  /**
   * No match starts strictly inside another: the prefix has its only `d`
   * at the front, and digits are not `d`.
   */
  lemma NoMatchInside(s: string)
    ensures forall i :: 0 < i < MatchAt(s) ==> MatchAt(s[i..]) == 0
  {
    var n := MatchAt(s);
    forall i | 0 < i < n ensures MatchAt(s[i..]) == 0 {
      if i < |SourcePrefix| {
        assert s[i] == SourcePrefix[i];
        assert SourcePrefix[i] != 'd';
      } else {
        assert s[i] == s[|SourcePrefix|..][i - |SourcePrefix|];
        assert IsDigit(s[i]);
      }
      assert s[i..][0] != SourcePrefix[0];
    }
  }

  /** No match starts strictly inside another, for every text. */
  lemma MatchesApart()
    ensures forall x: string, j :: 0 < j < MatchAt(x) ==> MatchAt(x[j..]) == 0
  {
    forall x: string, j | 0 < j < MatchAt(x) ensures MatchAt(x[j..]) == 0 {
      NoMatchInside(x);
    }
  }

  /** The match starting at position `i` of `s` is among the ids found: here is its place. */
  lemma MatchFound(s: string, i: nat) returns (k: nat)
    requires i < |s| && MatchAt(s[i..]) > 0
    ensures k < |FindSourceIds(s)| && FindSourceIds(s)[k] == s[i..i + MatchAt(s[i..])]
  {
    MatchesApart();
    k := ScanFound(s, MatchAt, i);
  }

  /** `re.findall` misses no match: every position where one starts contributes it. */
  lemma FindSourceIdsComplete(s: string)
    ensures forall i :: 0 <= i < |s| && MatchAt(s[i..]) > 0 ==> s[i..i + MatchAt(s[i..])] in FindSourceIds(s)
  {
    forall i | 0 <= i < |s| && MatchAt(s[i..]) > 0 ensures s[i..i + MatchAt(s[i..])] in FindSourceIds(s) {
      var k := MatchFound(s, i);
    }
  }

  /** `[source_names[i] for i in ids if i in source_names]`. */
  function KnownNames(ids: seq<string>, catalog: map<string, string>): (names: seq<string>)
    ensures forall id :: id in ids && id in catalog ==> catalog[id] in names
  {
    if ids == [] then []
    else
      var rest := KnownNames(ids[1..], catalog);
      assert forall id :: id in ids ==> id == ids[0] || id in ids[1..];
      if ids[0] in catalog then [catalog[ids[0]]] + rest else rest
  }

  /** Every known name is the catalog name of an id of the list: here is that id. */
  lemma {:induction false} KnownNameSource(ids: seq<string>, catalog: map<string, string>, k: nat)
    returns (id: string)
    requires k < |KnownNames(ids, catalog)|
    ensures id in ids && id in catalog && KnownNames(ids, catalog)[k] == catalog[id]
  {
    if ids[0] in catalog && k == 0 {
      id := ids[0];
    } else {
      var r := if ids[0] in catalog then k - 1 else k;
      id := KnownNameSource(ids[1..], catalog, r);
      assert id in ids;
    }
  }

  /** The names suggested for a notebook: one per recognized id, without repetition. */
  function SuggestedNames(content: string, catalog: map<string, string>): (names: seq<string>)
    ensures Distinct(names)
    ensures forall id :: id in FindSourceIds(content) && id in catalog ==> catalog[id] in names
    ensures forall k :: 0 <= k < |names| ==> names[k] in KnownNames(FindSourceIds(content), catalog)
  {
    Dedup(KnownNames(FindSourceIds(content), catalog))
  }

  /** `suggest_data_sources(content)`: the suggested names joined by commas. */
  function SuggestDataSources(content: string, catalog: map<string, string>): (r: string)
    ensures !MentionsSource(content) ==> r == ""
  {
    FindSourceIdsSound(content);
    if FindSourceIds(content) != [] then Join(SuggestedNames(content, catalog), ",") else ""
  }

  /**
   * The suggestion names no source twice, names only catalog entries of
   * ids that occur in the content, and names every such entry; ids the
   * catalog does not know are dropped.
   */
  lemma SuggestionSound(content: string, catalog: map<string, string>)
    ensures var names := SuggestedNames(content, catalog);
      && Distinct(names)
      && (forall k :: 0 <= k < |names| ==> exists id ::
            id in catalog && names[k] == catalog[id] && MatchedAt(content, MatchAt, id))
      && (forall id :: id in FindSourceIds(content) && id in catalog ==> catalog[id] in names)
      && (forall i ::
            (0 <= i < |content| && MatchAt(content[i..]) > 0 && content[i..i + MatchAt(content[i..])] in catalog)
            ==> catalog[content[i..i + MatchAt(content[i..])]] in names)
      && SuggestDataSources(content, catalog) == Join(names, ",")
  {
    SuggestedFromMatches(content, catalog);
    SuggestedAtPositions(content, catalog);
    var names := SuggestedNames(content, catalog);
    FindSourceIdsInText(content);
    if FindSourceIds(content) == [] {
      assert names == [];
    }
  }

  /** Every suggested name is the catalog name of the whole match at some position of the content. */
  lemma SuggestedFromMatches(content: string, catalog: map<string, string>)
    ensures var names := SuggestedNames(content, catalog);
      forall k :: 0 <= k < |names| ==> exists id ::
        id in catalog && names[k] == catalog[id] && MatchedAt(content, MatchAt, id)
  {
    var ids := FindSourceIds(content);
    var names := SuggestedNames(content, catalog);
    FindSourceIdsAtPositions(content);
    forall k | 0 <= k < |names| ensures exists id ::
      id in catalog && names[k] == catalog[id] && MatchedAt(content, MatchAt, id)
    {
      var i :| 0 <= i < |KnownNames(ids, catalog)| && KnownNames(ids, catalog)[i] == names[k];
      var id := KnownNameSource(ids, catalog, i);
      var j :| 0 <= j < |ids| && ids[j] == id;
      assert MatchedAt(content, MatchAt, ids[j]);
    }
  }

  /** The match at any position of the content whose id the catalog knows contributes its name. */
  lemma SuggestedAtPositions(content: string, catalog: map<string, string>)
    ensures var names := SuggestedNames(content, catalog);
      forall i ::
        (0 <= i < |content| && MatchAt(content[i..]) > 0 && content[i..i + MatchAt(content[i..])] in catalog)
        ==> catalog[content[i..i + MatchAt(content[i..])]] in names
  {
    FindSourceIdsComplete(content);
  }
}
