# Choose-your-own-adventure story graph, modelled in Dafny

The engine in `main.py` reads a directory of story fragment files. Each file
has a short header:

- a `From:` line naming the parent fragment;
- a `Title:` line;
- blank lines.

The body text follows the header. From these files the engine builds a map
from each parent to its children in discovery order, picks a root fragment,
and lets a player walk the graph by typing choice numbers.

This project models that core and proves what it does:

- **`Text`**: the Python string operations the parser relies on.
  - `str.strip` with Python's white-space set.
  - ASCII `str.lower`.
  - `split('\n')` and `'\n'.join`.
  - `str.replace('.txt', '')`.
  - `startswith`.
  - Code-point string ordering and the first element of `sorted`.
- **`Fragment`**: `parse_story_file` and the loading loop of `load_story_files`.
  - The header scan is a line classifier (`Classify`), a fold (`HeaderOf`) and a body boundary (`BodyStart`), which together define `Parse`.
  - `ParseStoryFile` is the `while` loop proved to compute `Parse`.
  - `LoadStories` parses every file and keeps the accepted ones.
- **`Links`**: `resolve_filename` and `build_links`.
  - Resolution searches a Python set, whose order is not fixed. The model chooses an element with `:|`, and the contract is the relation `Resolves`, which allows any correct answer.
  - `BuildLinks` reports the resolution it made for each story as the ghost sequence `parents`. Its result is `LinksOf(stories, parents)`.
  - `LoadStoryFiles` composes loading and linking.
- **`Root`**: `find_root_story`.
- **`Game`**: `get_user_choice` and `play_game`.
  - The player's input is a finite sequence of lines. Each line has already gone through `int()`: `Some(n)` for a number, `None` for anything else.
  - `Walk` is the play loop as a function. `Explore` is the loop, proved to compute `Walk`.

The `stories` dictionary is a sequence of `Entry(id, story)` in dictionary
(insertion) order. Its keys are distinct (`DistinctIds`), and
`Fragment.LoadContents` proves this whenever the file stems are distinct.

One truthiness rule of Python is kept wherever the source relies on it:

- `if not title` rejects both a missing and an empty title.
- `if resolved_parent:` rejects the empty identifier.
- `if not current_story` rejects an empty root.

A `From:` line with nothing after it gives the parent reference `""`. That
reference never resolves unless some story's identifier is empty.

Two choices in the code are easy to misread, and the model keeps them as written:

- **Choosing among several parentless stories.** One might expect the lexicographically smallest parentless story to be the root. `main.py:179-181` returns the first one in dictionary order. `Root.RootIsFirstTopLevel` states the code's rule, and `Root.RootFollowsOrderNotName` gives two stories where the two rules disagree.
- **Order of children.** Processing fragments in identifier order would make child order independent of load order. `main.py:126` iterates the dictionary, so children appear in load order (`Links.LinkOrder`).

## Model

| member | source | states |
|---|---|---|
| Text.StripStartFacts | main.py:76 | `lstrip()` keeps a suffix of the string that starts with a non-space character, and everything it drops is white space |
| Text.StripEndFacts | main.py:76 | `rstrip()` keeps a prefix of the string that ends with a non-space character, and everything it drops is white space |
| Text.StripFacts | main.py:76 | `strip()` leaves no white space at either end, and gives `""` exactly when the string is all white space |
| Text.StripIdempotent | main.py:79 | stripping an already stripped value changes nothing |
| Text.Split | main.py:68 | `split('\n')` gives at least one line, no line contains a line break, and joining the lines with `'\n'` gives back the text |
| Text.SplitJoin | main.py:100 | splitting text joined from lines without line breaks gives back exactly those lines |
| Text.RemoveAll | main.py:157 | `replace('.txt', '')` never lengthens the reference |
| Text.RemoveAllUnchanged | main.py:157 | a reference in which the pattern does not occur is left as it is |
| Text.RemoveAllBefore | main.py:157 | when the rest of the text starts with a pattern whose first character occurs nowhere else in it, no occurrence straddles the boundary, so removal before it and from it on are independent |
| Links.RemoveTxtAt | main.py:157 | for every reference, a `.txt` at any position is deleted, and the text on either side of it loses its own `.txt`s independently |
| Text.LowerFacts | main.py:78-83 | `lower()`, also used at `main.py:165`, leaves no capital ASCII letter and changes no character that is not one |
| Text.Smallest | main.py:189 | `sorted(keys)[0]` is one of the keys and sorts before or equal to every key |
| Text.SmallestUnique | main.py:189 | only one key can be the smallest |
| Text.LexLeTotal | main.py:189 | any two strings are ordered one way or the other |
| Text.LexLeTransitive | main.py:189 | the string order is transitive |
| Fragment.BodyStart | main.py:75-92 | the scan stops at the first line that is not a `From:`, `Title:` or blank line; every earlier line is one of those three |
| Fragment.ClassifyFacts | main.py:76-91 | judged on the trimmed, lower-cased line: a `From:` line exactly when it starts with `from:`; a `Title:` line exactly when it starts with `title:` but not `from:`; blank exactly when it trims to nothing; a body line exactly when it is non-empty and starts with neither prefix; a title is kept trimmed |
| Fragment.ParseStoryFile | main.py:56-109 | the scanning loop returns exactly `Parse(content)`: the record, or which of the two warnings drops the file |
| Fragment.HeaderValuesTrimmed | main.py:78-84 | each value the header keeps is trimmed, and a kept parent is never `none` in any case |
| Fragment.HeaderLastFrom | main.py:78-82 | a later `From:` line overwrites an earlier one: the last one decides the parent |
| Fragment.HeaderNoFrom | main.py:69 | with no `From:` line the parent stays `None` |
| Fragment.HeaderLastTitle | main.py:83-84 | a later `Title:` line overwrites an earlier one |
| Fragment.HeaderNoTitle | main.py:70 | with no `Title:` line the title stays `None` |
| Fragment.ParseAccepted | main.py:95-109 | an accepted record has a non-empty trimmed title, a non-empty trimmed text, and a trimmed parent other than `none` |
| Fragment.ParseWithoutTitle | main.py:95-97 | a header without a `Title:` line drops the file as missing its title |
| Fragment.ParseLastTitle | main.py:83-97 | the last `Title:` line decides: an empty value drops the file, any other value is the record's title, with its case kept |
| Fragment.ParseWithoutParent | main.py:69 | a record from a header without `From:` has no parent |
| Fragment.ParseLastParent | main.py:78-82 | the last `From:` line decides the parent: its trimmed value with its case kept, or no parent for `none` |
| Fragment.ParentValueExamples | main.py:81-82 | `none`, `None` and `NONE` mean no parent; an empty value stays `""` |
| Fragment.ParseBody | main.py:88-100 | the content is the header lines then the body lines; the body starts at the first non-header line and is kept verbatim, trimmed only at its two ends, so later metadata-like lines stay in it |
| Fragment.ClassifyFromLine | main.py:78-82 | `From: v` with a trimmed `v` is a `From:` line whose parent is `v`, or none for `none` |
| Fragment.ClassifyTitleLine | main.py:83-84 | `Title: t` with a trimmed `t`, empty or not, is a `Title:` line with title `t` |
| Fragment.ClassifyEmptyTitle | main.py:83-84 | `Title:` with nothing after it is a `Title:` line with the empty title, the case `Fragment.ParseLastTitle` rejects |
| Fragment.ParseWellFormed | main.py:56-109 | a file made of a `From:` line and a `Title:` line, in either order, followed by a body parses to exactly that parent, title and trimmed body |
| Fragment.ParseOfParts | main.py:56-109 | header lines with a title followed by body lines parse to that header's metadata and that body |
| Fragment.SplitAtBody | main.py:75-92 | header lines followed by body lines split back into exactly those two parts |
| Fragment.BodyNotBlank | main.py:100-103 | a body that starts with a body line never trims to empty, so such a file is not dropped for lack of content |
| Fragment.LoadStories | main.py:35-47 | the loading loop parses each stripped file and keeps exactly the files that parse, in file order, each under its stem |
| Fragment.KeptDistinct | main.py:45 | files with distinct stems give stories with distinct keys |
| Fragment.LoadContents | main.py:35-47 | every kept story comes from a file that parsed to it; every file that parses is kept; distinct stems give distinct keys |
| Links.ResolveFilename | main.py:145-168 | an exact match of the cleaned reference is returned as it is; otherwise some identifier equal to it ignoring case; `None` exactly when there is none |
| Links.CleanFacts | main.py:157 | the cleaned reference is trimmed, and is just the trimmed reference when no `.txt` occurs in it |
| Links.ResolvesUnique | main.py:164-166 | when no two identifiers differ only in case, the resolution is unique whatever the set's order |
| Links.EmptyReferenceUnresolved | main.py:157-168 | an empty `From:` value resolves to nothing when no identifier is empty |
| Links.CleanExamples | main.py:157 | `.txt` is removed, but `.TXT` is not |
| Links.CleanRemovesEveryTxt | main.py:157 | every `.txt` is removed: `a.txt.txt` becomes `a` |
| Links.ResolveExamples | main.py:157-166 | `a.txt` resolves to `A` by ignoring case, while `a.TXT` does not resolve to `a` |
| Links.BuildLinks | main.py:111-143 | the loop builds `LinksOf` over the resolutions it made, and reports the unresolved stories as `OrphansOf` |
| Links.ChildrenOfSnoc | main.py:137-139 | considering one more story appends it to its parent's list and to no other |
| Links.LinksAsFilter | main.py:126-139 | a key of the map is exactly a non-empty resolved parent of some story, and its list is the stories that resolved to it, in story order |
| Links.LinkMembership | main.py:126-139 | a story is in `p`'s list exactly when it has a `From:` line that resolved to the non-empty `p`; no list holds a story twice |
| Links.LinkOrder | main.py:126-139 | of two stories with the same parent, the earlier one is listed first |
| Links.ChildrenDistinct | main.py:139 | with distinct keys, a child occurs once in its parent's list |
| Links.LinksWithinStories | main.py:124-139 | every key and every child is a story identifier, and no list is empty |
| Links.LinksGrowByAppending | main.py:137-139 | the map is only appended to: each list after the first `n` stories is a prefix of the final list |
| Links.OrphanMembership | main.py:136-141 | a story is reported exactly when it has a `From:` line whose reference resolved to nothing or to the empty string, the two values `if resolved_parent:` rejects |
| Links.EmptyResolvesToEmpty | main.py:157-168 | whatever the identifiers, an empty reference resolves to nothing or to the empty identifier |
| Links.EmptyParentIsOrphan | main.py:129-141 | whatever the identifiers, a story with an empty `From:` value is reported and is nobody's child |
| Links.EmptyParentUnresolved | main.py:129-134 | when no identifier is empty, a story with an empty `From:` value has no resolved parent |
| Links.LoadStoryFiles | main.py:10-54 | loading keeps the parsed stories, and the links are `LinksOf` over a valid resolution of every story |
| Root.FirstTopLevel | main.py:179-181 | the index of the first story without a parent, and every story before it has one |
| Root.FindRootStory | main.py:170-191 | the scan returns exactly `RootOf(stories)` |
| Root.RootExists | main.py:188-191 | there is a root exactly when there is a story, and the root is one of the stories |
| Root.RootIsFirstTopLevel | main.py:179-181 | the first story in dictionary order without a parent is the root |
| Root.RootHasNoParent | main.py:179-181 | when some story has no parent, the root is a story without a parent |
| Root.RootStartFallback | main.py:184-185 | when every story has a parent and `start` exists, the root is `start` |
| Root.RootSmallestFallback | main.py:188-189 | otherwise the root is the identifier that sorts first |
| Root.RootFollowsOrderNotName | main.py:179-181 | of two parentless stories `b` then `a`, the root is `b` |
| Game.Chosen | main.py:212-218 | the position of the first input that is a number from 1 to the number of choices; every earlier input is rejected |
| Game.Choices | main.py:251 | `links.get(current_story, [])`: every choice is in the story's entry, and there are none exactly when the story has no entry or an empty one |
| Game.GetUserChoice | main.py:202-226 | the loop returns the first accepted input, which always lies in range, after reading exactly up to it; it returns nothing when every input is rejected |
| Game.Step | main.py:259-266 | the next story is one of the offered choices, and at least one line of input is used up |
| Game.WalkAfterChoice | main.py:265-266 | when get_user_choice returns `n`, the walk goes on from the `n`-th choice with the input after the lines read; when it returns nothing, the walk stops unfinished |
| Game.WalkExample | main.py:259-266 | over the choices `[b, a]`, input `1` walks to `b`, and `None, 0, 99, 2` walks to `a` |
| Game.Explore | main.py:245-266 | the play loop shows exactly the trail `Walk` gives |
| Game.PlayGame | main.py:228-266 | no game without a non-empty root; otherwise the walk from the root |
| Game.WalkStartsAt | main.py:245-247 | a walk starts with the story it starts from |
| Game.WalkFollowsLinks | main.py:259-266 | each story shown after the first is one of the choices offered at the story before it |
| Game.WalkEnds | main.py:250-264 | a walk is finished exactly when its last story has no choices; it shows at most one more story than the lines it reads |
| Game.WalkWithinStories | main.py:245-264 | when links name only stories, a walk from a story shows only stories |
| Game.PlayNeedsRoot | main.py:237-240 | there is no game exactly when there are no stories or the root is empty; otherwise the game starts at the root |
| Game.PlayShowsStories | main.py:245-264 | over the links built from the stories, `stories[current_story]` always finds a story |

## Left out

- Directory scanning, file reading, decoding errors and the messages printed are left out. `load_story_files` is modelled from the list of `(stem, content)` pairs already read, in glob order. A file that cannot be read contributes nothing, like a file that is absent.
- The warnings are printed, not returned, in the source. The model returns them as data: the dropped files with a `ParseError`, and the orphans of `BuildLinks`.
- Stripping uses Python's white-space set for `str.isspace`, so it matches the source.
- Text.Lower: lower-casing is ASCII only. No non-ASCII character lower-cases into a complete `from:`, `title:` or `none`, so those three tests come out as in Python. Only the case-insensitive resolution of `main.py:165` differs, for identifiers with non-ASCII letters.
- `int()` parsing is done before the model runs, so each input line is `Some(n)` or `None`. Stripping the typed line is part of that conversion.
- `KeyboardInterrupt` and `sys.exit` are left out.
- Game.Walk: the walk stops, unfinished, when the input runs out. In the source, `input()` would raise an error at end of input. A walk around a cycle in the links is cut off by the input running out.
- `display_story`, the prompt texts and `main` are left out, because they only print. Their one decision, that nothing is played when no story loaded, is `Game.PlayNeedsRoot`.
