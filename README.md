# localotaku-tgbot catalog index in Dafny

This project models the in-memory catalog index of the localotaku Telegram bot, and proves properties about that model.

`AnimeTrie` (`src/localotaku_tgbot/utils/trie.py`) keeps three things:
- a table of anime records by id;
- three prefix trees, over normalized titles, genre names and studio names;
- in every tree node below the root, the set of record ids whose key passes through that node; the root holds only the ids of keys that normalize to the empty string.

On this structure it answers four kinds of query:
- single-field prefix searches, sorted by id, with an optional limit;
- an intersecting multi-field search;
- a listing of all records sorted by lower-cased display title;
- autocomplete suggestions, found by a depth-first walk below the prefix node.

The model also covers two smaller parts:
- the strings derived from a record (`entites/core.py`): the display title, the genre list, and the Russian count phrases for seasons and films;
- four configuration validators (`config.py`): host, connection string, bot username and admin ids.

Modules, one file each:

- `Wrappers` (wrappers.dfy): `Option`, `Result`, the Python exceptions that matter here (`ValueError`, `TypeError`, `KeyError`), and Python truthiness of optional strings and integers.
- `Text` (text.dfy): the Unicode tables as a `Unicode` value of character functions, `str.strip`, Python string order, and decimal formatting of integers.
- `Normalization` (normalize.dfy): `_normalize_text` as a pipeline of string functions.
- `Sorting` (sorting.dfy): `sorted(...)` over id sets and string sets, and list slicing.
- `Entities` (entities.dfy): `Genre`, `AnimeStudio`, `Anime` and the derived strings.
- `Config` (config.py's validators, in config.dfy).
- `TrieArena` (trie_arena.dfy): `TrieNode` and one prefix tree as a class `Trie`.
  - The nodes live in an arena, a sequence in which `nodes[0]` is the root.
  - Each node's children map characters to arena positions.
  - Ghost state records the path of every node and the set of `(normalized key, id)` pairs inserted so far.
  - `Trie.Valid()` says that each node's `anime_ids` and `is_end_of_word` are determined by those pairs.
- `Suggestions` (suggestions.dfy): the stack walk of `get_suggestions`.
- `AnimeIndex` (anime_trie.dfy): the class `AnimeTrie`, with the table `animeById`, the three trees, and a ghost list `indexed` of the records whose texts entered the trees since the last `clear`.

### Removal and stale ids

`remove_anime` deletes only the table entry, and the model does the same.
- The trees keep the removed record's ids.
- A later search then evaluates `self._anime_by_id[anime_id]` for a missing id, which raises `KeyError`.

The searches therefore return `Result<seq<Anime>, Exception>`. Their contracts state both outcomes exactly: `KeyError` of the smallest missing id, or the listing. No precondition excludes the stale state.

The invariant `AnimeTrie.NoStaleIds()` says that every id held by any node of the three trees is a table key.
- `AddAnime` and `Clear` preserve it.
- `RemoveAnime` breaks it whenever the removed record had indexed text.
- `SearchMeaning` proves that `NoStaleIds()` implies the search succeeds.
- `RemovedTitleRaises` proves that searching a removed record's own title fails.

The stronger `Synced()` says that every record indexed since the last `clear` is still in the table. Under `Synced()`:
- `SearchMeaning` and `AdvancedSearchMeaning` prove that the unlimited listing holds exactly the table records whose texts match. `SearchByTitle` and `AdvancedSearch` with a truthy limit return a prefix of that listing (`Limit`).
- `SuggestionsMeaning` proves that every suggestion is the display title of a table record with a title that extends the prefix. When fewer titles than the limit come back, it proves that every such record's display title is suggested.

### Behaviour worth noting

- Normalization is not idempotent. `strip` runs before punctuation removal, so `"! a"` becomes `" a"`, and normalizing that again gives `"a"` (`Normalization.LeadingSpaceSurvives`, over ASCII tables).
- `remove_anime` does not prune the trees: it deletes only the table entry, as described above.
- A blank prefix finds only records with an empty key. `_add_to_trie` adds the id to each child on the path and to the end node, but not to the root (trie.py:36-43). A prefix that normalizes to `""` stops at the root. So `search_by_title(" ")` finds no record with a non-empty key, and neither does `advanced_search(title_prefix=" ")`, while `advanced_search()` lists every record (`AnimeIndex.BlankPrefixMisses`, over ASCII tables).

## Model

| member | source | states |
|---|---|---|
| Wrappers.TruthyString | src/localotaku_tgbot/utils/trie.py:105-117 | `if x:` on an optional string: false for `None` and `""`, true otherwise |
| Wrappers.TruthyInt | src/localotaku_tgbot/utils/trie.py:83 | `if limit:` on an optional integer: false for `None` and 0, true otherwise |
| Wrappers.OrEmpty | src/localotaku_tgbot/utils/trie.py:65-66 | `x or ""` for an optional string: `""` for `None`, otherwise the string itself |
| Text.TrimStart | src/localotaku_tgbot/config.py:19 | the result is no longer than the input and does not start with whitespace |
| Text.TrimStartSuffix | src/localotaku_tgbot/config.py:19 | `lstrip` removes exactly a prefix that is entirely whitespace |
| Text.TrimEnd | src/localotaku_tgbot/config.py:19 | the result is no longer than the input and does not end with whitespace |
| Text.TrimEndPrefix | src/localotaku_tgbot/config.py:19 | `rstrip` removes exactly a suffix that is entirely whitespace |
| Text.StripBlank | src/localotaku_tgbot/config.py:19-21 | `strip()` leaves no whitespace at either end, and is empty exactly when every character is whitespace |
| Text.StripIdempotent | src/localotaku_tgbot/config.py:21 | stripping twice is the same as stripping once |
| Text.Filter | src/localotaku_tgbot/utils/trie.py:26-28 | the generic `"".join(c for c in s if keep(c))` behind both filtering steps: only accepted characters remain, an all-accepted text is unchanged, and a single character is kept exactly when accepted; with FilterAppend this fixes the result as all accepted characters, in order |
| Text.FilterAppend | src/localotaku_tgbot/utils/trie.py:26-28 | filtering a concatenation is filtering each part and concatenating |
| Text.Strip | src/localotaku_tgbot/config.py:19-21 | `str.strip()`, as `TrimEnd` of `TrimStart`: never longer than the input; StripBlank and StripIdempotent state what it leaves |
| Text.LexLess | src/localotaku_tgbot/utils/trie.py:133 | Python's `<` on `str`, behind `sorted`: the first differing code point decides, and a proper prefix is smaller; the three lemmas below make it a strict total order |
| Text.LexLessIrreflexive | src/localotaku_tgbot/utils/trie.py:133 | Python's string `<` is irreflexive |
| Text.LexLessTransitive | src/localotaku_tgbot/utils/trie.py:133 | Python's string `<` is transitive |
| Text.LexLessTotal | src/localotaku_tgbot/utils/trie.py:179 | any two distinct strings are ordered one way or the other |
| Text.NatToString | src/localotaku_tgbot/entites/core.py:52 | the decimal text of a natural number is all digits, with no leading zero except for 0 |
| Text.IntToString | src/localotaku_tgbot/entites/core.py:52 | f-string formatting of an int: digits, or `-` followed by digits for a negative number |
| Text.ParseNatToString | src/localotaku_tgbot/entites/core.py:52 | the decimal text of a natural number reads back as that number |
| Text.ParseIntToString | src/localotaku_tgbot/entites/core.py:52 | the decimal text of any integer reads back as that integer |
| Normalization.DropCombining | src/localotaku_tgbot/utils/trie.py:26 | never lengthens the text, and a single character is kept exactly when it is not a combining mark |
| Normalization.DropCombiningAppend | src/localotaku_tgbot/utils/trie.py:26 | each part of a concatenation is filtered on its own, so with the single-character case every non-combining character is kept, in order |
| Normalization.DropCombiningIsFilter | src/localotaku_tgbot/utils/trie.py:26 | the step equals the generic filter that keeps the characters that are not combining marks |
| Normalization.DropCombiningChars | src/localotaku_tgbot/utils/trie.py:26 | no combining mark remains, and a text without one is unchanged |
| Normalization.DropPunctuation | src/localotaku_tgbot/utils/trie.py:28 | `re.sub(r"[^\w\s-]", "", s)` never lengthens the text, and a single character is kept exactly when it is a word character, whitespace or `-` |
| Normalization.DropPunctuationAppend | src/localotaku_tgbot/utils/trie.py:28 | each part of a concatenation is filtered on its own, so with the single-character case every admitted character is kept, in order |
| Normalization.DropPunctuationIsFilter | src/localotaku_tgbot/utils/trie.py:28 | the step equals the generic filter that keeps the admitted characters |
| Normalization.DropPunctuationChars | src/localotaku_tgbot/utils/trie.py:28 | only word characters, whitespace and `-` remain, and a text made only of those is unchanged |
| Normalization.CollapseSpaces | src/localotaku_tgbot/utils/trie.py:29 | `re.sub(r"\s+", " ", s)`: empty exactly when the input is; starts with `' '` when the input starts with whitespace and otherwise with the input's first character; never has two adjacent spaces when `' '` is whitespace |
| Normalization.CollapseSpacesRun | src/localotaku_tgbot/utils/trie.py:29 | a non-empty whitespace run followed by text that does not start with whitespace becomes exactly one `' '` before the collapsed rest |
| Normalization.CollapseSpacesKeep | src/localotaku_tgbot/utils/trie.py:29 | a character that is not whitespace is kept before the collapsed rest; with CollapseSpacesRun this fixes the result for every input |
| Normalization.CollapseSpacesFrom | src/localotaku_tgbot/utils/trie.py:29 | every output character is `' '` or a non-whitespace character of the input |
| Normalization.CollapseKeepsVisibleText | src/localotaku_tgbot/utils/trie.py:29 | collapsing whitespace keeps the non-whitespace characters and their order |
| Normalization.Normalize | src/localotaku_tgbot/utils/trie.py:24-30 | `_normalize_text`, the six steps in source order (NFKD, drop combining marks, lower, strip, drop punctuation, collapse whitespace); its properties are the lemmas below |
| Normalization.NormalizeChars | src/localotaku_tgbot/utils/trie.py:24-30 | a normalized key holds only word characters, `-` and `' '`; its only whitespace is `' '`, and, when `' '` is whitespace, no two spaces are adjacent |
| Normalization.NormalizeBangSpace | src/localotaku_tgbot/utils/trie.py:24-30 | `"! a"` normalizes to `" a"`: the leading space survives because strip runs before punctuation removal |
| Normalization.NormalizeSpaceA | src/localotaku_tgbot/utils/trie.py:24-30 | `" a"` normalizes to `"a"` |
| Normalization.LeadingSpaceSurvives | src/localotaku_tgbot/utils/trie.py:24-30 | normalization is not idempotent: normalizing `"! a"` a second time changes it |
| Sorting.InsertAscending | src/localotaku_tgbot/config.py:52 | inserting into a strictly ascending list keeps it strictly ascending, adds exactly x, and lengthens it when x is new |
| Sorting.SortedUnique | src/localotaku_tgbot/config.py:52 | `sorted(set(xs))` is strictly ascending with exactly the elements of xs |
| Sorting.AscendingUnique | src/localotaku_tgbot/config.py:52 | two strictly ascending lists with the same elements are equal, so the sorted form is unique |
| Sorting.Ascending | src/localotaku_tgbot/utils/trie.py:81 | `sorted(ids)` as a specification: strictly ascending with exactly the ids of the set |
| Sorting.SortedIds | src/localotaku_tgbot/utils/trie.py:81 | the insertion loop returns the ascending listing of the id set |
| Sorting.InsertString | src/localotaku_tgbot/utils/trie.py:179 | inserting into a strictly ascending string list keeps it so and adds exactly x |
| Sorting.SortStrings | src/localotaku_tgbot/utils/trie.py:179 | `sorted(list(suggestions))`: strictly ascending, exactly the strings of the set, one entry each |
| Sorting.SliceTo | src/localotaku_tgbot/utils/trie.py:84 | `xs[:n]` is a prefix of `xs` of length n, clamped to the length, and a negative n drops that many from the end |
| Entities.DisplayTitle | src/localotaku_tgbot/entites/core.py:41-43 | `title_english` if non-empty, else `title_japanese` if non-empty, else `title`; `None` and `""` both fall through |
| Entities.DisplayTitleIsOwnTitle | src/localotaku_tgbot/entites/core.py:41-43 | the display title is one of the record's three titles, and is empty exactly when all three are |
| Entities.Join | src/localotaku_tgbot/entites/core.py:46 | `sep.join` of no parts is `""`, and of one part is that part |
| Entities.GenreNames | src/localotaku_tgbot/entites/core.py:46 | the names of the genres, position by position |
| Entities.StudioNames | src/localotaku_tgbot/utils/trie.py:76-77 | the names of the studios, position by position |
| Entities.GenresString | src/localotaku_tgbot/entites/core.py:45-46 | an empty genre list gives `""` |
| Entities.SplitJoin | src/localotaku_tgbot/entites/core.py:46 | cutting a `", "`-joined list of comma-free parts at its commas gives back the parts |
| Entities.GenresStringListsNames | src/localotaku_tgbot/entites/core.py:45-46 | when no genre name holds a comma, the genre string lists exactly the genre names, in list order |
| Entities.SeasonsString | src/localotaku_tgbot/entites/core.py:48-54 | `None` fails at the `>` comparison; 1 gives "1 Сезон"; 2 to 4 give "n Сезона"; every other integer gives "n Сезонов" |
| Entities.FilmsString | src/localotaku_tgbot/entites/core.py:56-64 | `None` fails at the `>` comparison; 0 gives "Нет фильмов"; 1 gives "1 Фильм"; 2 to 4 give "n Фильма"; every other integer gives "n Фильмов" |
| Entities.SeasonsStringNamesCount | src/localotaku_tgbot/entites/core.py:49-54 | every integer takes exactly one branch: its decimal text, a space and one noun form, and the count reads back as n |
| Entities.FilmsStringNamesCount | src/localotaku_tgbot/entites/core.py:57-64 | every non-zero integer gives its decimal text, a space and one noun form, and the count reads back as n |
| Entities.TwentyOneSeasons | src/localotaku_tgbot/entites/core.py:53-54 | 21 falls into the "Сезонов" branch |
| Config.ValidateHost | src/localotaku_tgbot/config.py:17-21 | rejects with "Host cannot be empty" exactly when the host is all whitespace; otherwise returns the stripped host, which has no whitespace at either end |
| Config.ValidateHostIdempotent | src/localotaku_tgbot/config.py:17-21 | an accepted host passes the validator again unchanged |
| Config.ConnectionString | src/localotaku_tgbot/config.py:23-25 | the f-string `postgresql://{username}:{password}@{host}:{port}/{database_name}`; ConnectionStringRoundTrip states what it encodes |
| Config.ConnectionStringRoundTrip | src/localotaku_tgbot/config.py:23-25 | `postgresql://{username}:{password}@{host}:{port}/{database_name}` reads back into its five parts when the username and host hold no `:` and the password holds no `@`; the port text reads back as the port |
| Config.AtInPasswordMisreads | src/localotaku_tgbot/config.py:23-25 | with an `@` in the password, the same string reads back with a different password and host |
| Config.IsAlnum | src/localotaku_tgbot/config.py:42 | `str.isalnum()`: non-empty and every character alphanumeric |
| Config.ValidateBotUsername | src/localotaku_tgbot/config.py:38-46 | accepts exactly `@` followed by at least one character, all alphanumeric; a value not starting with `@` gets the first error and any other rejection the second; an accepted value is returned lower-cased |
| Config.ValidateAdminIds | src/localotaku_tgbot/config.py:48-52 | rejects exactly when some id is not positive; otherwise returns the ids strictly ascending, with exactly the input's elements |
| Config.ValidateAdminIdsIdempotent | src/localotaku_tgbot/config.py:48-52 | an accepted id list passes the validator again unchanged |
| TrieArena.IdsInsert | src/localotaku_tgbot/utils/trie.py:36-43 | inserting one pair adds its id to a node's set exactly when the key reaches that node, and changes no other node's set |
| TrieArena.IdsNarrow | src/localotaku_tgbot/utils/trie.py:45-54 | for a non-empty prefix, a longer prefix never finds more ids |
| TrieArena.RootSkipsNonEmptyKeys | src/localotaku_tgbot/utils/trie.py:36-43 | the root holds an id only for an empty key, so the empty prefix can find fewer ids than a longer one |
| TrieArena.LabelledUpToAll | src/localotaku_tgbot/utils/trie.py:8-14 | the node labels are, node by node, `is_end_of_word` for an inserted key and `anime_ids` for the ids reaching that node |
| TrieArena.ChildPath | src/localotaku_tgbot/utils/trie.py:49-52 | a node of path w has a child for c exactly when w + c is a path, and that child is the node of w + c |
| TrieArena.PrefixClosed | src/localotaku_tgbot/utils/trie.py:36-39 | every prefix of a node's path is the path of a node |
| TrieArena.Grow | src/localotaku_tgbot/utils/trie.py:37-38 | `node.children[char] = TrieNode()` adds one child and keeps the tree well formed and labelled |
| TrieArena.Advance | src/localotaku_tgbot/utils/trie.py:39-40 | stepping to the child and adding the id keeps the labelling of the key walked so far |
| TrieArena.InsertKey | src/localotaku_tgbot/utils/trie.py:32-43 | the insertion loop leaves a well-formed tree labelled by the old pairs plus `(key, id)` |
| TrieArena.Trie.constructor | src/localotaku_tgbot/utils/trie.py:8-14 | a fresh root with no children, not an end of word, with no ids |
| TrieArena.Trie.NodesWithin | src/localotaku_tgbot/utils/trie.py:40-43 | every node id is in a set exactly when every inserted pair's id is |
| TrieArena.Trie.Find | src/localotaku_tgbot/utils/trie.py:49-52 | the walk finds a node exactly when the key is a path of the tree, and returns that node; it creates nothing |
| TrieArena.Trie.Search | src/localotaku_tgbot/utils/trie.py:45-54 | `_search_in_trie` returns exactly the ids of the inserted keys that the normalized prefix reaches, and changes nothing |
| TrieArena.Trie.Insert | src/localotaku_tgbot/utils/trie.py:32-43 | `_add_to_trie` keeps the tree valid and adds exactly the pair (normalized text, id), so every node on the path receives the id, the final node ends a word, and no other node changes |
| AnimeIndex.TitleTexts | src/localotaku_tgbot/utils/trie.py:62-67 | the set `{title, display_title, title_english or "", title_japanese or ""}` |
| AnimeIndex.Admits | src/localotaku_tgbot/utils/trie.py:70 | `if title.strip():`: a title is indexed only when it is not blank, and a genre or studio name always |
| AnimeIndex.TitleList | src/localotaku_tgbot/utils/trie.py:62-67 | the four title strings `add_anime` collects |
| AnimeIndex.KeysOfMembers | src/localotaku_tgbot/utils/trie.py:69-77 | the pairs one field's loop adds are exactly (normalized text, id) for each admitted text, where titles are admitted only when not blank |
| AnimeIndex.KeysOfHas | src/localotaku_tgbot/utils/trie.py:69-77 | every admitted text's normalized key is among the pairs, with the id |
| AnimeIndex.KeysOfFrom | src/localotaku_tgbot/utils/trie.py:69-77 | every pair is the normalized key of some admitted text, with the id |
| AnimeIndex.KeysOfStep | src/localotaku_tgbot/utils/trie.py:69-77 | one more text in the loop adds its pair exactly when it is admitted |
| AnimeIndex.KeysOfSameTexts | src/localotaku_tgbot/utils/trie.py:62-71 | the pairs depend only on the set of texts, not on their order or repetition |
| AnimeIndex.EntriesOfId | src/localotaku_tgbot/utils/trie.py:71-77 | every pair added for a record carries that record's id |
| AnimeIndex.EntriesInMembers | src/localotaku_tgbot/utils/trie.py:56-77 | every pair in a tree comes from one of the records indexed since the last clear |
| AnimeIndex.EntriesInAdd | src/localotaku_tgbot/utils/trie.py:56-77 | indexing one more record adds exactly its pairs |
| AnimeIndex.EntriesInContains | src/localotaku_tgbot/utils/trie.py:56-77 | an indexed record's pairs are all in the tree |
| AnimeIndex.Enumerate | src/localotaku_tgbot/utils/trie.py:69 | iterating a set visits each of its strings exactly once |
| AnimeIndex.InsertTexts | src/localotaku_tgbot/utils/trie.py:69-77 | calling `_add_to_trie` for each text keeps the tree valid and adds exactly those texts' pairs |
| AnimeIndex.Listing | src/localotaku_tgbot/utils/trie.py:81 | `[table[i] for i in ids]` succeeds exactly when every id is a key, giving the records in order; otherwise it raises `KeyError` of the first missing id |
| AnimeIndex.Limit | src/localotaku_tgbot/utils/trie.py:83-84 | `if limit: results = results[:limit]`: an error passes through; a falsy limit (`None` or 0) keeps everything; a positive limit keeps the first `min(limit, len)` records; a negative limit drops the last `-limit` records, or all of them when there are fewer |
| AnimeIndex.ListIds | src/localotaku_tgbot/utils/trie.py:81 | the list comprehension's loop computes the listing |
| AnimeIndex.AdvancedIds | src/localotaku_tgbot/utils/trie.py:103-123 | the reference set of `advanced_search`: every table id when no prefix is truthy, otherwise the ids found by every truthy prefix; AdvancedIdsMembers states its members |
| AnimeIndex.AdvancedIdsMembers | src/localotaku_tgbot/utils/trie.py:103-120 | with at least one truthy prefix, the result ids are exactly those found by every truthy prefix's search |
| AnimeIndex.AdvancedTitleOnly | src/localotaku_tgbot/utils/trie.py:105-106 | with only a title prefix, the result ids are the title search's ids |
| AnimeIndex.BlankPrefixMisses | src/localotaku_tgbot/utils/trie.py:36-54 | a blank prefix normalizes to `""` and reaches only the root, so the title search and the intersecting title search miss a record keyed "naruto", while the search with no prefix keeps every key |
| AnimeIndex.SortKey | src/localotaku_tgbot/utils/trie.py:133 | the key `lambda a: a.display_title.lower()` |
| AnimeIndex.InsertByKey | src/localotaku_tgbot/utils/trie.py:133 | inserting a record into a list sorted by lower-cased display title keeps it sorted and adds exactly that record |
| AnimeIndex.SortByKey | src/localotaku_tgbot/utils/trie.py:133 | `sorted(table.values(), key=...)` is sorted by lower-cased display title, is a permutation of the table's records, and has one entry per id |
| AnimeIndex.IndexesAdd | src/localotaku_tgbot/utils/trie.py:56-77 | adding a new record keeps the trees describing the indexed records, keeps `Synced`, and keeps every tree id a table key |
| AnimeIndex.IndexesRemove | src/localotaku_tgbot/utils/trie.py:135-141 | deleting a table entry keeps the trees describing the indexed records |
| AnimeIndex.ListingSorted | src/localotaku_tgbot/utils/trie.py:81 | the listing of sorted ids succeeds exactly when every id is a table key, and then lists exactly those records by strictly ascending id |
| AnimeIndex.IdsMatch | src/localotaku_tgbot/utils/trie.py:79-94 | when nothing indexed was removed, the ids a prefix finds in a field's tree are exactly the table records with a text whose key that prefix reaches |
| AnimeIndex.SuggestableMatch | src/localotaku_tgbot/utils/trie.py:153-179 | when nothing indexed was removed, a title can be suggested exactly when it is the display title of a table record with a title that extends the prefix |
| AnimeIndex.OwnTitleMatches | src/localotaku_tgbot/utils/trie.py:62-71 | a record with a non-blank title matches the title search for that title |
| AnimeIndex.FindOwnTitle | src/localotaku_tgbot/utils/trie.py:18-86 | a new `AnimeTrie()` after one `add_anime` finds that record under its own non-blank title, and only it |
| AnimeIndex.AnimeTrie.NoStaleIdsIffEntries | src/localotaku_tgbot/utils/trie.py:20-22 | every node id is a table key exactly when every inserted pair's id is |
| AnimeIndex.AnimeTrie.EntryIds | src/localotaku_tgbot/utils/trie.py:56-77 | every pair in a tree carries the id of an indexed record |
| AnimeIndex.AnimeTrie.SyncedNoStaleIds | src/localotaku_tgbot/utils/trie.py:56-77 | when nothing indexed was removed, no tree holds a stale id |
| AnimeIndex.AnimeTrie.constructor | src/localotaku_tgbot/utils/trie.py:18-22 | an empty table and three new, empty trees; the invariants hold |
| AnimeIndex.AnimeTrie.TotalAnime | src/localotaku_tgbot/utils/trie.py:149-151 | the number of table entries, zero exactly when the table is empty |
| AnimeIndex.AnimeTrie.AddTitles | src/localotaku_tgbot/utils/trie.py:69-71 | adds exactly the pairs of the non-blank titles to the title tree |
| AnimeIndex.AnimeTrie.AddGenres | src/localotaku_tgbot/utils/trie.py:73-74 | adds exactly the pairs of the genre names to the genre tree |
| AnimeIndex.AnimeTrie.AddStudios | src/localotaku_tgbot/utils/trie.py:76-77 | adds exactly the pairs of the studio names to the studio tree |
| AnimeIndex.AnimeTrie.AddTexts | src/localotaku_tgbot/utils/trie.py:69-77 | adds exactly the record's pairs to each of the three trees |
| AnimeIndex.AnimeTrie.Register | src/localotaku_tgbot/utils/trie.py:60 | the table gains the record under its id, and the invariants are re-established |
| AnimeIndex.AnimeTrie.AddAnime | src/localotaku_tgbot/utils/trie.py:56-77 | an id already in the table changes nothing; otherwise the table gains the record and the total grows by one; `Synced` and `NoStaleIds` are preserved |
| AnimeIndex.AnimeTrie.RemoveAnime | src/localotaku_tgbot/utils/trie.py:135-141 | an unknown id returns false and changes nothing; otherwise it returns true and deletes only the table entry, leaving the trees unchanged; removing a record with indexed text breaks `NoStaleIds` |
| AnimeIndex.AnimeTrie.StaleAfterRemove | src/localotaku_tgbot/utils/trie.py:135-141 | once an indexed record with text is no longer in the table, some tree holds a stale id |
| AnimeIndex.AnimeTrie.Clear | src/localotaku_tgbot/utils/trie.py:143-147 | fresh empty trees, an empty table, a total of zero, and all invariants restored |
| AnimeIndex.AnimeTrie.Lookup | src/localotaku_tgbot/utils/trie.py:89-90 | searches a tree and lists the found ids in ascending order through the table |
| AnimeIndex.AnimeTrie.SearchByTitle | src/localotaku_tgbot/utils/trie.py:79-86 | with `limit` defaulting to `None`, the limited listing of the title tree's ids for the normalized prefix, in ascending id order |
| AnimeIndex.AnimeTrie.SearchByGenre | src/localotaku_tgbot/utils/trie.py:88-90 | the listing of the genre tree's ids for the normalized prefix, in ascending id order |
| AnimeIndex.AnimeTrie.SearchByStudio | src/localotaku_tgbot/utils/trie.py:92-94 | the listing of the studio tree's ids for the normalized prefix, in ascending id order |
| AnimeIndex.AnimeTrie.Tree | src/localotaku_tgbot/utils/trie.py:19-22 | the tree that belongs to each field |
| AnimeIndex.AnimeTrie.SearchMeaning | src/localotaku_tgbot/utils/trie.py:79-94 | a search cannot raise without stale ids; a successful result is in strictly ascending id order and holds only table records; when nothing indexed was removed it holds exactly the records with a matching text |
| AnimeIndex.AnimeTrie.OnlyRecordListed | src/localotaku_tgbot/utils/trie.py:56-86 | under Synced, a table holding only one record lists exactly that record for its own non-blank title |
| AnimeIndex.AnimeTrie.RemovedTitleRaises | src/localotaku_tgbot/utils/trie.py:79-81 | after a record with a non-blank title is removed, searching for that title raises `KeyError` |
| AnimeIndex.AnimeTrie.AdvancedResultIds | src/localotaku_tgbot/utils/trie.py:103-123 | with no truthy prefix, every table id; otherwise the intersection of the searches of the truthy prefixes |
| AnimeIndex.AnimeTrie.AdvancedSearch | src/localotaku_tgbot/utils/trie.py:96-130 | with every argument defaulting to `None`, the limited listing, in ascending id order, of those result ids |
| AnimeIndex.AnimeTrie.AdvancedSearchMeaning | src/localotaku_tgbot/utils/trie.py:96-130 | when nothing indexed was removed and some prefix is truthy, the search succeeds, in strictly ascending id order, and holds exactly the table records that have, for every truthy prefix, a text in that field whose key the prefix reaches |
| AnimeIndex.AnimeTrie.GetAllAnime | src/localotaku_tgbot/utils/trie.py:132-133 | all table records, sorted by lower-cased display title, each once |
| AnimeIndex.AnimeTrie.GetSuggestions | src/localotaku_tgbot/utils/trie.py:153-179 | with `max_suggestions` defaulting to 10: `[]` when the prefix path is missing; otherwise a strictly ascending list of at most `max_suggestions` strings, each the display title of a table record under a key that extends the prefix, and all such titles when fewer than the limit are returned |
| AnimeIndex.AnimeTrie.SuggestionsMeaning | src/localotaku_tgbot/utils/trie.py:153-179 | when nothing indexed was removed, every suggestion is the display title of a table record with a title extending the prefix, and below the limit every such record's title is suggested |
| Suggestions.Bound | src/localotaku_tgbot/utils/trie.py:165 | the number of titles the limit allows: the limit itself when positive, otherwise 0 |
| Suggestions.FrontierStart | src/localotaku_tgbot/utils/trie.py:163 | the stack holding only the prefix node starts the walk's invariant |
| Suggestions.ChildNodes | src/localotaku_tgbot/utils/trie.py:176 | `children.items()` lists every child exactly once |
| Suggestions.FrontierAdvance | src/localotaku_tgbot/utils/trie.py:166-177 | popping a node and pushing its children keeps the walk's invariant, and a node not popped before is popped |
| Suggestions.Visit | src/localotaku_tgbot/utils/trie.py:168-174 | adds the display titles of the node's live ids, stopping at the limit; all of them when it stops short of the limit |
| Suggestions.SeenStep | src/localotaku_tgbot/utils/trie.py:168-172 | once a node is visited below the limit, the titles of its live records are found |
| Suggestions.WalkDone | src/localotaku_tgbot/utils/trie.py:165 | when the stack is empty, every inserted key below the prefix node has been visited |
| Suggestions.CollectAt | src/localotaku_tgbot/utils/trie.py:168-174 | a popped end-of-word node contributes its live titles |
| Suggestions.Expand | src/localotaku_tgbot/utils/trie.py:176-177 | a popped node is replaced on the stack by its children |
| Suggestions.WalkStep | src/localotaku_tgbot/utils/trie.py:165-177 | one turn of the loop keeps the invariant and pops exactly one new node |
| Suggestions.CollectSuggestions | src/localotaku_tgbot/utils/trie.py:163-177 | at most the limit of titles, each the display title of a live record under a key below the prefix node, and all of them when the walk stops short of the limit |

## Left out

- Unicode tables. NFKD decomposition, `unicodedata.combining`, `str.lower`, the regex classes `\w` and `\s`, `str.isspace` and `str.isalnum` are fields of a `Unicode` value. Every member that needs them takes that value as a parameter. The concrete examples use an ASCII instance (`Normalization.Ascii`).
- `Anime` fields. The model keeps only the fields that the index and the derived strings read. `image_url`, `synopsis`, `score` (a float), `episodes`, `status`, `manga_authors`, `year`, `season` and the `OriginalMangaAuthor` record are not modelled.
- Record values. Records are values, so a caller that mutates an `Anime` object after adding it is not modelled.
- Trie nodes. The nodes of one tree live in an arena inside one `Trie` object, not as objects of their own.
- The `current_word` half of each stack entry in `get_suggestions`. It is built but never read, so the stack holds node positions only.
- Iteration order of Python sets and dicts. The model fixes no order for the titles set in `add_anime`, a node's `anime_ids`, or `children.items()`.
- AnimeIndex.AnimeTrie.GetSuggestions: states completeness only when fewer than `max_suggestions` titles come back. Once the limit is reached, which titles are kept depends on set and dict iteration order, which is not modelled.
- AnimeIndex.AnimeTrie.GetAllAnime: states the result is sorted by key and a permutation of the table. It does not fix the order of records with equal keys, which Python's stable sort takes from dict insertion order.
- Removal from the trees. The model removes nothing from the trees, because the code does not.
- Configuration loaders. `ConfigFileLoader`, the TOML and JSON loaders, `ConfigLoaderFactory`, `ConfigurationManager`, `from_json_string` and `from_json_file` are file I/O and parsing, and are not part of this model.
- Pydantic field constraints. The `Field` constraints (`min_length`, `ge`, `le`, `regex`) are not modelled, and neither is the validator machinery that calls the validators. The validators are modelled as the functions they are.
- Other source files. `utils/logger.py`, `utils/default_commands.py` and `loader.py` are logging, network and process setup, and are not part of this model.
- Concurrency. No locking or concurrent use is modelled.
