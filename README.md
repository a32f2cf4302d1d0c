# Jupyter notebook gallery: registry and Open Humans credentials

This project models the core of a notebook-sharing gallery for Open Humans
members, written in Dafny.

- **Notebook registry** (`main/helpers.py`): notebooks uploaded by members are
  `SharedNotebook` records. The model covers:
  - keyword search over master records;
  - choosing the master copy of a notebook name;
  - creating or updating a record by (owner, name);
  - counting the data sources that master notebooks use;
  - suggesting data sources from the ids a notebook mentions;
  - the small helpers that pick notebook files out of a member's data and
    build the notebook-server import link;
  - the exchange of an OAuth2 authorization code for a member record.
- **Member credentials** (`open_humans/models.py`): an `OpenHumansMember`
  holds an access token, a refresh token and an expiry time. The model covers
  refreshing the token when fewer than 60 seconds remain, and choosing a
  unique local username `base`, `base2`, `base3`, ….

The store of records is a sequence of `Notebook` values. A record's id is its
index, and records are never removed. Members live in a `Directory` that holds
the set of taken usernames and a map from `oh_id` to `Member` objects, which
are updated in place. Time is a whole number of seconds passed in as `now`.
The replies of the Open Humans endpoints are parameters, and so is the catalog
of data sources.

Tags and data sources are kept as lists of strings. Search matches a term
against `Json.Dumps` of the list, which is the JSON text the database column
stores. A term is therefore a substring of that text, not an element of the
list. `Json.Dumps` escapes non-ASCII characters as `\uXXXX`, as Python's
`json.dumps` does by default.

Modules:
- `Wrappers`: `Option`.
- `Text`: strip, split, join, substring search, decimal numerals.
- `Sequences`: distinctness, de-duplication and a stable sort by an integer key.
- `Json`: JSON text of a list of strings.
- `OpenHumans`: usernames, `Member`, `Directory`.
- `Accounts`: the code exchange.
- `Notebooks`: the registry.
- `Sharing`: the small helpers and the data-source suggestion.

## Model

| member | source | states |
|---|---|---|
| Text.Strip | main/helpers.py:174 | `str.strip()`: the result is the infix after the leading white space, is not padded, and everything cut off is white space |
| Text.Split | main/helpers.py:174 | `str.split(',')`: one part more than there are separators, and no part contains the separator |
| Text.SplitJoin | main/helpers.py:174 | joining the parts of a split with the separator gives back the input, so parts keep their order and content |
| Text.ParseList | main/helpers.py:173-178 | a tag or data-source list has one item per comma plus one; item i is part i of the split, stripped; no item is padded or contains a comma |
| Text.ParseEmpty | main/helpers.py:174 | an empty field parses to the one-item list `[""]` |
| Text.RStrip | main/helpers.py:34 | `rstrip('/')`: a prefix of the input that does not end in the character, and everything removed is that character |
| Text.NatToString | open_humans/models.py:28 | `str(n)` is a non-empty run of digits, with two or more digits exactly when n >= 10, and it starts with `0` only for n = 0 (no leading zeros) |
| Text.DecimalRoundTrip | open_humans/models.py:28 | reading the digits of `str(n)` gives back n |
| Text.NatToStringInjective | open_humans/models.py:28 | different numbers have different decimal strings |
| Text.IntToString | main/helpers.py:25 | `str(id)` of an integer is a minus sign exactly when it is negative, followed by a non-empty run of digits |
| Text.IntToStringInjective | main/helpers.py:25 | different ids have different `str(id)`, so comparing `str(id)` with the requested id picks out the entries with that id |
| Text.ContainsOccurrence | main/helpers.py:43-63 | the `__contains` lookup holds exactly when the term occurs at some position of the field |
| Text.JoinHasPart | main/helpers.py:85 | `sep.join(parts)` contains every part |
| Sequences.Dedup | main/helpers.py:84 | removing repeats: no element twice, and an element is in the result exactly when it is in the input |
| Sequences.Insert | main/helpers.py:66 | inserting into a list sorted by key keeps it sorted and adds exactly that element |
| Sequences.SortBy | main/helpers.py:198 | `sorted(..., key=...)`: ordered by key and a permutation of the input |
| Sequences.DistinctPermutation | main/helpers.py:198 | a permutation of a list without repeats has no repeats |
| Sequences.PermutationMembers | main/helpers.py:66 | a permutation has the same members |
| Sequences.SortByAgree | main/helpers.py:95 | the sort depends only on the keys, so equal keys on the input give the same order |
| Json.EscapeChar | main/helpers.py:175 | a character's JSON form is ASCII, and it is the character itself exactly when the character is printable ASCII other than `"` and `\` |
| Json.Dumps | main/helpers.py:175 | `json.dumps` of a list of strings is ASCII text |
| Json.PlainElementFound | main/helpers.py:44 | an element made of printable ASCII is a substring of the stored JSON text, so searching for it finds the record |
| Json.NonAsciiNeverFound | main/helpers.py:44 | a term with a non-ASCII character never matches stored JSON text |
| Json.ListSearch | main/helpers.py:44 | searching a stored list finds each element made of plain characters, and a term that matches is ASCII |
| OpenHumans.MakeUniqueUsername | open_humans/models.py:18-33 | the result is not taken; it is `base` when that is free, and otherwise `base + str(n)` for the least n >= 2 that is free |
| OpenHumans.FirstFreeUnique | open_humans/models.py:18-33 | there is only one first free name |
| OpenHumans.TriedSize | open_humans/models.py:26-31 | the names tried before suffix n are n - 2 distinct names, which bounds the loop by the number of taken names |
| OpenHumans.Member.constructor | open_humans/models.py:60-67 | a new member has the given identity and tokens and is not public |
| OpenHumans.Member.RefreshTokens | open_humans/models.py:85-100 | one request is sent; on status 200 the three credential fields come from the reply with expiry now + expires_in, otherwise nothing changes |
| OpenHumans.Member.GetAccessToken | open_humans/models.py:72-83 | with 60 or more seconds left nothing changes and the stored token is returned; with fewer, one refresh is tried and the resulting stored token is returned |
| OpenHumans.RefreshBoundary | open_humans/models.py:78-80 | exactly 60 seconds left does not trigger a refresh; 59 seconds does |
| OpenHumans.GetExpiration | open_humans/models.py:51-52 | the expiry is `expires_in` seconds after the clock reading, so a token granted for fewer than 60 seconds is due for a refresh at once |
| OpenHumans.RefreshStaysDue | open_humans/models.py:78-80 | a token that needs a refresh keeps needing one as the clock advances |
| OpenHumans.RefreshDue | open_humans/models.py:51-52 | a token issued at t for e seconds is refreshed on use exactly when more than e - 60 seconds have passed |
| OpenHumans.Directory.Create | open_humans/models.py:54-67 | a new user named by `make_unique_username(oh_id + "_openhumans")` is added, and the new member links to it with expiry now + expires_in |
| Accounts.CodeToMember | main/helpers.py:112-164 | None exactly when a setting or the code is missing or the reply has no access token, and then nothing changes. A known `oh_id` keeps its object, user and username, and only its tokens and expiry change. An unknown one gets a fresh member under a new unique user |
| Notebooks.TagsMatch | main/helpers.py:43-45 | `tags__contains`: a tag made of plain characters is found by searching for it, and only ASCII terms match |
| Notebooks.SourcesMatch | main/helpers.py:48-50 | `data_sources__contains`: the same for data sources |
| Notebooks.MasterIds | main/helpers.py:43-45 | the master records satisfying a filter, each once, in ascending id order |
| Notebooks.MasterIdsByUpdate | main/helpers.py:46-57 | the master records matching one field, each once, ordered by `updated_at` |
| Notebooks.AllMatchesMembers | main/helpers.py:58-65 | an id is in one of the five querysets exactly when its record is a master and one of the five fields matches |
| Notebooks.UnionIds | main/helpers.py:58-65 | the union of the five querysets: a master record is in it exactly once when any of the five fields matches, in ascending id order |
| Notebooks.UnionOfQuerysets | main/helpers.py:43-65 | the union holds exactly the ids that one of the five querysets holds |
| Notebooks.UnionIdsByUpdate | main/helpers.py:65-66 | the union of the five querysets, each record once, ordered by `updated_at` |
| Notebooks.FindByKeywords | main/helpers.py:42-67 | exactly the master records the search field selects (one field for tags, data_sources or username, else any of five), each once, ordered by `updated_at` ascending |
| Notebooks.IdentifyMaster | main/helpers.py:89-98 | None exactly when no record has the name and another owner; otherwise such a record with the least `created_at` |
| Notebooks.EarliestFirst | main/helpers.py:95-97 | after ordering by `created_at`, the first record is an earliest one |
| Notebooks.MasterIgnoresOwnRecords | main/helpers.py:169-184 | changes confined to the uploader's own records do not change the master found for a name |
| Notebooks.FindRecord | main/helpers.py:169-171 | the record keyed by (owner, name) when there is one, and None exactly when there is none |
| Notebooks.Upserted | main/helpers.py:167-190 | an upload adds one record when the key is new and none otherwise, leaves records with another (owner, name) unchanged, and leaves a record with the key and the new `updated_at` |
| Notebooks.UpsertEffect | main/helpers.py:167-190 | after an upload exactly one record has the key; it holds the parsed tags and sources, the new content, description and `updated_at`, and the master from `identify_master_notebook`; `created_at` is set only when the record is new; every other record is unchanged |
| Notebooks.UpsertIdempotent | main/helpers.py:167-190 | uploading the same submission twice at the same time is the same as uploading it once |
| Notebooks.ReuploadLinksRecordsMutually | main/helpers.py:183-184 | re-uploading a master whose name another member's record points at makes the two records point at each other, leaving no master for the name |
| Notebooks.NotebookStore.constructor | main/helpers.py:169 | an empty store is well formed |
| Notebooks.NotebookStore.AddNotebook | main/helpers.py:167-190 | the store becomes the upserted store, stays well formed, and `created` tells whether the key was new |
| Notebooks.MasterSources | main/helpers.py:195-196 | a source is listed exactly when some master record has it |
| Notebooks.TallySources | main/helpers.py:196-197 | adding a record's data sources to the `defaultdict` counts every source seen so far and lists each counted source once |
| Notebooks.SortedTally | main/helpers.py:198 | the sorted items name each counted source once, carry its number of occurrences, and have non-increasing counts |
| Notebooks.NotebookStore.AllDataSourcesNumeric | main/helpers.py:193-198 | every data source of a master record appears once, with its number of occurrences over master records only, largest count first |
| Notebooks.NotebookStore.AllDataSources | main/helpers.py:201-203 | the same sources, each once, in non-increasing order of occurrences |
| Sharing.NotebookFiles | main/helpers.py:17-20 | the entries from `direct-sharing-71`, each as often as in the data, and no other entries |
| Sharing.NotebookFilesAppend | main/helpers.py:17-20 | filtering a concatenation is concatenating the filtered parts, so the kept entries stay in data order |
| Sharing.GetNotebookOh | main/helpers.py:23-26 | the basename and URL of the first entry whose `str(id)` equals the argument; None exactly when there is no such entry |
| Sharing.NotebookLink | main/helpers.py:33-39 | the link starts with the import endpoint, and the query string follows it |
| Sharing.LinkParams | main/helpers.py:33-39 | when neither the location nor the name contains `&`, the query string after the import endpoint reads as exactly `notebook_location` = the site root without trailing slashes plus the export path, then `notebook_name` = the name, then `target=voila` only when the request asked for `voila` |
| Sharing.NameWithAmpersand | main/helpers.py:39 | the name is not URL-encoded: a name `a&b` makes the query read `notebook_name=a` followed by an extra argument `b` |
| Sharing.FindSourceIds | main/helpers.py:71-72 | every match found has the form `direct-sharing-` followed by digits |
| Sharing.FindSourceIdsSound | main/helpers.py:71-72 | every id found is the whole, longest match of `direct-sharing-\d+` starting at some position of the content, so it occurs there; none is found exactly when the content mentions no id |
| Sharing.FindSourceIdsAtPositions | main/helpers.py:71-72 | every id found is the whole, longest match starting at some position of the content, never a cut-short part of one |
| Sharing.FindSourceIdsInText | main/helpers.py:71-72 | every id found occurs in the content; none is found exactly when the content mentions no id |
| Sharing.NoMatchInside | main/helpers.py:71 | no match of `direct-sharing-\d+` starts strictly inside another, because the pattern's only `d` is its first character and digits are not `d` |
| Sharing.MatchFound | main/helpers.py:71-72 | the longest match starting at any position of the content is one of the ids found, at a definite place in the result |
| Sharing.FindSourceIdsComplete | main/helpers.py:71-72 | `re.findall` misses no id: at every position where the pattern matches, the longest match there is among the ids found |
| Sharing.KnownNames | main/helpers.py:82-83 | every id the catalog knows contributes its name |
| Sharing.KnownNameSource | main/helpers.py:82-83 | every name kept is the catalog name of an id from the list |
| Sharing.SuggestedNames | main/helpers.py:81-84 | the suggested names are distinct, every id found that the catalog knows contributes its name, and every name comes from such an id |
| Sharing.SuggestDataSources | main/helpers.py:70-86 | no id in the content gives "" |
| Sharing.SuggestionSound | main/helpers.py:81-85 | the suggested names are distinct; each is the catalog name of the whole match at some position of the content, and unknown ids are dropped; every match at any position of the content whose id the catalog knows contributes its name |
| Sharing.SuggestedFromMatches | main/helpers.py:71-83 | every suggested name is the catalog name of the whole, longest match at some position of the content |
| Sharing.SuggestedAtPositions | main/helpers.py:71-83 | the match at any position of the content whose id the catalog knows contributes its name |

## Left out

- HTTP calls are not modelled. The replies of the token endpoint, of `api.exchange_oauth2_member` and of the data-source catalog are parameters. Downloading the notebook is replaced by the `content` field of the submission.
- The catalog pagination loop of `suggest_data_sources` (main/helpers.py:77-80) is not modelled. It fetches the same page again, appends a list instead of extending, and never ends when `next` is set. The catalog is taken as a map from id to name.
- `Sharing.SuggestDataSources`: `list(set(...))` has no defined order. The model keeps the first occurrence of each name, so only the set of names and their distinctness are meaningful.
- SQL leaves the order of rows with equal `updated_at`, `created_at` or count unspecified. The model keeps them in store order, which stands in for the database's row order, and no contract states an order among ties.
- Django persistence (`save`, `get_or_create`, querysets), `messages.info`, logging, `reverse` and `request.build_absolute_uri` are not modelled. The store is in memory; the site root and export path are parameters of `Sharing.NotebookLink`.
- `paginate_items` is not modelled: its behaviour is Django's `Paginator`, which is not part of this model.
- Dates are whole seconds. `arrow` formatting and time zones are not modelled.
- `str(notebook_content)` and `.decode()` are not modelled: the content is a string already.
- `Notebooks.NotebookStore.AddNotebook`: the source's failures are not modelled. A missing `tags` or `data_sources` POST field is `None`, and `None.split` raises `AttributeError` (main/helpers.py:173-174, 176-177). Content that is not valid UTF-8 makes `.decode()` raise (main/helpers.py:180). Both happen after `get_or_create` (main/helpers.py:169) has already saved a new record with default fields, so a failed upload can leave that record behind. The model's submission always carries both fields as strings and the content as text.
- `Sharing.LinkParams`: the query string of `Sharing.NotebookLink` is built without URL encoding (main/helpers.py:39). The lemma states the arguments the server reads only when the location and the name contain no `&`. `Sharing.NameWithAmpersand` shows what happens otherwise; `=`, `#`, `%` and spaces in a name are not analysed.
- `OpenHumans.Member.RefreshTokens`: a status-200 reply without `access_token`, `refresh_token` or `expires_in` raises `KeyError` in the source (open_humans/models.py:96-99). The fields are assigned one by one, so the in-memory member can already hold the new access token, or both new tokens, when the error is raised, and `save` is never reached. The model's `RefreshReply` body always has all three fields.
- `Accounts.CodeToMember`: a reply with `access_token` but without `refresh_token` or `expires_in` raises `KeyError` in the source. The model's successful reply always has all three fields.
- `OpenHumans.Member.GetAccessToken`: the `client_id` and `client_secret` arguments only authenticate the refresh request. The endpoint's reply is the `reply` parameter, so they are not modelled.
- A notebook's description is a string. The form can also leave it unset (`None`), which is not modelled.
- Substring matching is case-sensitive, as Django's `__contains` is on a case-sensitive database. SQLite's `LIKE` ignores ASCII case, which is not modelled.
- `Sharing.FindSourceIds`: its own contract states only that each id found has the pattern's shape. That each id is the whole match at some position of the content is stated by `Sharing.FindSourceIdsAtPositions`, and that none is missed by `Sharing.FindSourceIdsComplete`.
- `\d` in the data-source pattern is taken as the ASCII digits. Python's `re` would also accept other Unicode decimal digits.
- Concurrent requests (two refreshes or two uploads at once) are not modelled.
- No "one master per name" property is claimed. `Notebooks.ReuploadLinksRecordsMutually` shows that it does not hold.
