/**
 * Resolving `From:` references and building the parent-to-children map
 * (main.py, resolve_filename and build_links).
 *
 * The stories are the dictionary `stories` in iteration order, as a sequence
 * of entries. `resolve_filename` searches a Python set, whose order is not
 * fixed, so its specification `Resolves` is a relation; `BuildLinks` reports
 * the resolution it made for each story as the ghost `parents`, and its
 * result is `LinksOf(stories, parents)`.
 */
module Links {
  import opened Wrappers
  import opened Text
  import opened Fragment

  /** The reference with every `.txt` removed (case-sensitively, anywhere) and the ends trimmed. */
  function Clean(reference: string): string {
    Strip(RemoveAll(reference, ".txt"))
  }

  /** The cleaned reference is trimmed, and is the trimmed reference when no `.txt` occurs in it. */
  lemma CleanFacts(reference: string)
    ensures Strip(Clean(reference)) == Clean(reference)
    ensures (forall i :: !OccursAt(reference, ".txt", i)) ==> Clean(reference) == Strip(reference)
  {
    StripIdempotent(RemoveAll(reference, ".txt"));
    if forall i :: !OccursAt(reference, ".txt", i) {
      RemoveAllUnchanged(reference, ".txt");
    }
  }

  /**
   * The outcomes resolve_filename may give: the cleaned reference itself when
   * it is an identifier; otherwise some identifier equal to it once both are
   * lower-cased; `None` exactly when there is no such identifier.
   */
  ghost predicate Resolves(reference: string, available: set<string>, r: Option<string>) {
    var c := Clean(reference);
    && (r.Some? ==> r.value in available && Lower(r.value) == Lower(c))
    && (c in available ==> r == Some(c))
    && (r.None? <==> forall a :: a in available ==> Lower(a) != Lower(c))
  }

  /** resolve_filename: an exact match first, then a case-insensitive search of the set. */
  method ResolveFilename(reference: string, available: set<string>) returns (r: Option<string>)
    ensures Resolves(reference, available, r)
  {
    var clean := Strip(RemoveAll(reference, ".txt"));
    if clean in available {
      return Some(clean);
    }
    var rest := available;
    while rest != {}
      invariant rest <= available
      invariant forall a :: a in available - rest ==> Lower(a) != Lower(clean)
      decreases rest
    {
      var a :| a in rest;
      if Lower(clean) == Lower(a) {
        return Some(a);
      }
      rest := rest - {a};
    }
    return None;
  }

  /** When no two identifiers differ only in case, the resolution is unique. */
  lemma ResolvesUnique(reference: string, available: set<string>, r1: Option<string>, r2: Option<string>)
    requires forall a, b :: a in available && b in available && Lower(a) == Lower(b) ==> a == b
    requires Resolves(reference, available, r1) && Resolves(reference, available, r2)
    ensures r1 == r2
  {
  }

  /** An empty reference (`From:` with nothing after it) resolves to nothing when no identifier is empty. */
  lemma EmptyReferenceUnresolved(available: set<string>, r: Option<string>)
    requires "" !in available
    requires Resolves("", available, r)
    ensures r == None
  {
    assert Clean("") == "";
  }

  /** Whatever the identifiers, an empty reference resolves to nothing or to the empty identifier. */
  lemma EmptyResolvesToEmpty(available: set<string>, r: Option<string>)
    requires Resolves("", available, r)
    ensures r == None || r == Some("")
  {
    assert Clean("") == "";
    if r.Some? {
      assert |Lower(r.value)| == |Lower("")| == 0;
    }
  }

  /** `.txt` is removed from a reference, but only in lower case. */
  lemma CleanExamples()
    ensures Clean("a.txt") == "a"
    ensures Clean("a.TXT") == "a.TXT"
  {
    assert "a.txt"[..4] != ".txt" && "a.txt"[1..] == ".txt";
    assert RemoveAll("a.txt", ".txt") == "a";
    StripUnchanged("a");
    assert "a.TXT"[..4] != ".txt" && "a.TXT"[1..] == ".TXT" && ".TXT"[..4] == ".TXT";
    assert ".TXT"[1] != ".txt"[1];
    assert RemoveAll("a.TXT", ".txt") == "a.TXT";
    StripUnchanged("a.TXT");
  }

  /** Every `.txt` is removed, not only a trailing one. */
  lemma CleanRemovesEveryTxt()
    ensures Clean("a.txt.txt") == "a"
  {
    assert "a.txt.txt"[..4] != ".txt" && "a.txt.txt"[1..] == ".txt.txt";
    assert ".txt.txt"[..4] == ".txt" && ".txt.txt"[4..] == ".txt";
    assert ".txt"[4..] == "";
    assert RemoveAll("a.txt.txt", ".txt") == "a";
    StripUnchanged("a");
  }

  /**
   * For every reference, a `.txt` anywhere in it is removed, and removal on
   * either side of it goes on independently: `.txt` has no proper prefix that
   * is also a suffix, so no occurrence can straddle the one at `|x|`.
   */
  lemma RemoveTxtAt(x: string, y: string)
    ensures RemoveAll(x + ".txt" + y, ".txt") == RemoveAll(x, ".txt") + RemoveAll(y, ".txt")
  {
    assert HeadUnique(".txt") by {
      assert ".txt"[1..] == "txt";
    }
    var t := ".txt" + y;
    assert x + ".txt" + y == x + t;
    assert t[..4] == ".txt" && t[4..] == y;
    RemoveAllDrop(t, ".txt");
    RemoveAllBefore(x, ".txt", t);
  }

  /**
   * A `.txt` is dropped and case is ignored; but a `.TXT` stays and blocks
   * the match.
   */
  lemma ResolveExamples(r1: Option<string>, r2: Option<string>)
    requires Resolves("a.txt", {"A"}, r1)
    requires Resolves("a.TXT", {"a"}, r2)
    ensures r1 == Some("A")
    ensures r2 == None
  {
    CleanExamples();
    assert Lower("A") == "a" == Lower("a");
    assert |Lower("a.TXT")| != |Lower("a")|;
  }

  /** Python's `if resolved_parent:`: a parent is attached when it is present and not empty. */
  predicate Attached(p: Option<string>) {
    p.Some? && p.value != ""
  }

  /**
   * `parents[i]` is what resolve_filename gave for story `i`: `None` for a
   * story without a parent, a resolution of its reference otherwise.
   */
  ghost predicate ValidParents(stories: seq<Entry>, available: set<string>, parents: seq<Option<string>>) {
    && |parents| == |stories|
    && forall i :: 0 <= i < |stories| ==>
         match stories[i].story.fromFile
         case None => parents[i] == None
         case Some(reference) => Resolves(reference, available, parents[i])
  }

  /** The map build_links produces, given each story's resolved parent, in loop order. */
  function LinksOf(stories: seq<Entry>, parents: seq<Option<string>>): map<string, seq<string>>
    requires |parents| == |stories|
    decreases |stories|
  {
    if stories == [] then map[]
    else
      var n := |stories| - 1;
      var links := LinksOf(stories[..n], parents[..n]);
      if Attached(parents[n]) then
        var p := parents[n].value;
        links[p := (if p in links then links[p] else []) + [stories[n].id]]
      else links
  }

  /** The stories build_links warns about: a parent reference that did not resolve, in loop order. */
  function OrphansOf(stories: seq<Entry>, parents: seq<Option<string>>): seq<string>
    requires |parents| == |stories|
    decreases |stories|
  {
    if stories == [] then []
    else
      var n := |stories| - 1;
      OrphansOf(stories[..n], parents[..n])
        + (if stories[n].story.fromFile.Some? && !Attached(parents[n]) then [stories[n].id] else [])
  }

  /** build_links: one pass over the stories, appending each resolved child to its parent's list. */
  method BuildLinks(stories: seq<Entry>)
    returns (links: map<string, seq<string>>, orphans: seq<string>, ghost parents: seq<Option<string>>)
    ensures ValidParents(stories, IdSet(stories), parents)
    ensures links == LinksOf(stories, parents)
    ensures orphans == OrphansOf(stories, parents)
  {
    var available := IdSet(stories);
    links, orphans, parents := map[], [], [];
    for i := 0 to |stories|
      invariant ValidParents(stories[..i], available, parents)
      invariant links == LinksOf(stories[..i], parents)
      invariant orphans == OrphansOf(stories[..i], parents)
    {
      var entry := stories[i];
      ghost var before := links;
      var resolved: Option<string> := None;
      if entry.story.fromFile.Some? {
        resolved := ResolveFilename(entry.story.fromFile.value, available);
        if resolved.Some? && resolved.value != "" {
          if resolved.value !in links {
            links := links[resolved.value := []];
          }
          links := links[resolved.value := links[resolved.value] + [entry.id]];
        } else {
          orphans := orphans + [entry.id];
        }
      }
      assert links == if Attached(resolved) then
          before[resolved.value := (if resolved.value in before then before[resolved.value] else []) + [entry.id]]
        else before;
      ValidParentsSnoc(stories, available, parents, resolved);
      assert stories[..i + 1][..i] == stories[..i];
      assert (parents + [resolved])[..i] == parents;
      assert LinksOf(stories[..i + 1], parents + [resolved]) == links;
      assert OrphansOf(stories[..i + 1], parents + [resolved]) == orphans;
      parents := parents + [resolved];
    }
    assert stories[..|stories|] == stories;
  }

  /** A valid resolution of the first stories extends by a valid resolution of the next one. */
  lemma ValidParentsSnoc(stories: seq<Entry>, available: set<string>, parents: seq<Option<string>>, resolved: Option<string>)
    requires |parents| < |stories|
    requires ValidParents(stories[..|parents|], available, parents)
    requires match stories[|parents|].story.fromFile
      case None => resolved == None
      case Some(reference) => Resolves(reference, available, resolved)
    ensures ValidParents(stories[..|parents| + 1], available, parents + [resolved])
  {
    var i := |parents|;
    forall j | 0 <= j < i + 1
      ensures match stories[..i + 1][j].story.fromFile
        case None => (parents + [resolved])[j] == None
        case Some(reference) => Resolves(reference, available, (parents + [resolved])[j])
    {
      if j < i {
        assert stories[..i + 1][j] == stories[..i][j];
        assert (parents + [resolved])[j] == parents[j];
      }
    }
  }

  /** The identifiers of the stories whose resolved parent is `p`, in story order. */
  function ChildrenOf(stories: seq<Entry>, parents: seq<Option<string>>, p: string): seq<string>
    requires |parents| == |stories|
    decreases |stories|
  {
    if stories == [] then []
    else (if parents[0] == Some(p) then [stories[0].id] else []) + ChildrenOf(stories[1..], parents[1..], p)
  }

  /** Filtering one more story at the end appends it when its parent is `p`. */
  lemma {:induction false} ChildrenOfSnoc(stories: seq<Entry>, parents: seq<Option<string>>, p: string)
    requires |parents| == |stories| && stories != []
    ensures var n := |stories| - 1;
      ChildrenOf(stories, parents, p)
        == ChildrenOf(stories[..n], parents[..n], p) + (if parents[n] == Some(p) then [stories[n].id] else [])
    decreases |stories|
  {
    var n := |stories| - 1;
    var head := if parents[0] == Some(p) then [stories[0].id] else [];
    assert ChildrenOf(stories, parents, p) == head + ChildrenOf(stories[1..], parents[1..], p);
    if n > 0 {
      ChildrenOfSnoc(stories[1..], parents[1..], p);
      assert stories[1..][..n - 1] == stories[..n][1..];
      assert parents[1..][..n - 1] == parents[..n][1..];
      assert ChildrenOf(stories[..n], parents[..n], p) == head + ChildrenOf(stories[..n][1..], parents[..n][1..], p);
    } else {
      assert stories[..n] == [] && stories[1..] == [];
    }
  }

  /** Every child listed under `p` is a story whose resolved parent is `p`. */
  lemma {:induction false} ChildrenAreStories(stories: seq<Entry>, parents: seq<Option<string>>, p: string, c: string)
    requires |parents| == |stories| && c in ChildrenOf(stories, parents, p)
    ensures exists j :: 0 <= j < |stories| && stories[j].id == c && parents[j] == Some(p)
    decreases |stories|
  {
    if !(parents[0] == Some(p) && c == stories[0].id) {
      ChildrenAreStories(stories[1..], parents[1..], p, c);
      var j :| 0 <= j < |stories| - 1 && stories[1..][j].id == c && parents[1..][j] == Some(p);
      assert stories[j + 1].id == c && parents[j + 1] == Some(p);
    }
  }

  /** A story whose resolved parent is `p` is listed under `p`. */
  lemma {:induction false} StoryIsChild(stories: seq<Entry>, parents: seq<Option<string>>, p: string, i: nat)
    requires |parents| == |stories| && i < |stories| && parents[i] == Some(p)
    ensures stories[i].id in ChildrenOf(stories, parents, p)
    decreases |stories|
  {
    if i > 0 {
      StoryIsChild(stories[1..], parents[1..], p, i - 1);
    }
  }

  /** An identifier that is no story's is never listed as a child. */
  lemma {:induction false} NotAChild(stories: seq<Entry>, parents: seq<Option<string>>, p: string, c: string)
    requires |parents| == |stories|
    requires forall j :: 0 <= j < |stories| ==> stories[j].id != c
    ensures c !in ChildrenOf(stories, parents, p)
    decreases |stories|
  {
    if stories != [] {
      assert forall j :: 0 <= j < |stories| - 1 ==> stories[1..][j].id != c;
      NotAChild(stories[1..], parents[1..], p, c);
    }
  }

  /** When no story's parent is `p`, nothing is listed under `p`. */
  lemma {:induction false} NoChildren(stories: seq<Entry>, parents: seq<Option<string>>, p: string)
    requires |parents| == |stories|
    requires forall j :: 0 <= j < |stories| ==> parents[j] != Some(p)
    ensures ChildrenOf(stories, parents, p) == []
    decreases |stories|
  {
    if stories != [] {
      assert forall j :: 0 <= j < |stories| - 1 ==> parents[1..][j] != Some(p);
      NoChildren(stories[1..], parents[1..], p);
    }
  }

  /** The first position of `x` in `s`. */
  function PosIn(s: seq<string>, x: string): (k: nat)
    requires x in s
    ensures k < |s| && s[k] == x && x !in s[..k]
  {
    if s[0] == x then 0
    else
      var k := 1 + PosIn(s[1..], x);
      assert s[..k] == [s[0]] + s[1..][..k - 1];
      k
  }

  /** No identifier occurs twice. */
  predicate NoDuplicates(s: seq<string>) {
    forall i, j :: 0 <= i < j < |s| ==> s[i] != s[j]
  }

  /** With distinct identifiers, each child occurs once in its parent's list. */
  lemma {:induction false} ChildrenDistinct(stories: seq<Entry>, parents: seq<Option<string>>, p: string)
    requires |parents| == |stories| && DistinctIds(stories)
    ensures NoDuplicates(ChildrenOf(stories, parents, p))
    decreases |stories|
  {
    if stories != [] {
      var rest := ChildrenOf(stories[1..], parents[1..], p);
      ChildrenDistinct(stories[1..], parents[1..], p);
      assert forall j :: 0 <= j < |stories| - 1 ==> stories[1..][j].id != stories[0].id;
      NotAChild(stories[1..], parents[1..], p, stories[0].id);
    }
  }

  /**
   * Children keep the order of the stories: of two stories with parent `p`,
   * the earlier one is listed first.
   */
  lemma {:induction false} ChildOrder(stories: seq<Entry>, parents: seq<Option<string>>, p: string, i: nat, j: nat)
    requires |parents| == |stories| && DistinctIds(stories)
    requires i < j < |stories| && parents[i] == Some(p) && parents[j] == Some(p)
    ensures stories[i].id in ChildrenOf(stories, parents, p) && stories[j].id in ChildrenOf(stories, parents, p)
    ensures PosIn(ChildrenOf(stories, parents, p), stories[i].id) < PosIn(ChildrenOf(stories, parents, p), stories[j].id)
    decreases |stories|
  {
    StoryIsChild(stories, parents, p, i);
    StoryIsChild(stories, parents, p, j);
    var all := ChildrenOf(stories, parents, p);
    var rest := ChildrenOf(stories[1..], parents[1..], p);
    StoryIsChild(stories[1..], parents[1..], p, j - 1);
    if i == 0 {
      assert all[0] == stories[0].id;
      assert PosIn(all, stories[0].id) == 0;
      assert stories[0].id != stories[j].id;
    } else {
      assert stories[1..][i - 1] == stories[i] && stories[1..][j - 1] == stories[j];
      assert parents[1..][i - 1] == parents[i] && parents[1..][j - 1] == parents[j];
      assert DistinctIds(stories[1..]);
      ChildOrder(stories[1..], parents[1..], p, i - 1, j - 1);
      if parents[0] == Some(p) {
        assert all == [stories[0].id] + rest;
        PosShift(stories[0].id, rest, stories[i].id);
        PosShift(stories[0].id, rest, stories[j].id);
      } else {
        assert all == rest;
      }
    }
  }

  /** A new head that differs from `x` moves `x` one place on. */
  lemma PosShift(head: string, s: seq<string>, x: string)
    requires x in s && x != head
    ensures PosIn([head] + s, x) == 1 + PosIn(s, x)
  {
    assert ([head] + s)[1..] == s;
  }

  /**
   * The map is the filter, key by key: `p` is a key exactly when it is not
   * empty and some story's parent resolved to it, and its list is
   * `ChildrenOf(p)`.
   */
  lemma {:induction false} LinksAsFilter(stories: seq<Entry>, parents: seq<Option<string>>, p: string)
    requires |parents| == |stories|
    ensures p in LinksOf(stories, parents)
      <==> p != "" && exists i :: 0 <= i < |stories| && parents[i] == Some(p)
    ensures p in LinksOf(stories, parents) ==> LinksOf(stories, parents)[p] == ChildrenOf(stories, parents, p)
    decreases |stories|
  {
    if stories != [] {
      var n := |stories| - 1;
      LinksAsFilter(stories[..n], parents[..n], p);
      ChildrenOfSnoc(stories, parents, p);
      assert forall i :: 0 <= i < n ==> parents[..n][i] == parents[i];
      var links := LinksOf(stories[..n], parents[..n]);
      if p !in links {
        if Attached(parents[n]) && parents[n].value == p {
          assert forall j :: 0 <= j < n ==> parents[..n][j] != Some(p);
          NoChildren(stories[..n], parents[..n], p);
        }
      }
    }
  }

  /**
   * Link membership: the keys and all children are story identifiers, and
   * every list is non-empty.
   */
  lemma LinksWithinStories(stories: seq<Entry>, parents: seq<Option<string>>)
    requires ValidParents(stories, IdSet(stories), parents)
    ensures forall p :: p in LinksOf(stories, parents) ==> p in IdSet(stories)
    ensures forall p :: p in LinksOf(stories, parents) ==> LinksOf(stories, parents)[p] != []
    ensures forall p, c :: p in LinksOf(stories, parents) && c in LinksOf(stories, parents)[p] ==> c in IdSet(stories)
  {
    var links := LinksOf(stories, parents);
    forall p | p in links
      ensures p in IdSet(stories) && links[p] != []
      ensures forall c :: c in links[p] ==> c in IdSet(stories)
    {
      LinksAsFilter(stories, parents, p);
      var i :| 0 <= i < |stories| && parents[i] == Some(p);
      StoryIsChild(stories, parents, p, i);
      forall c | c in links[p] ensures c in IdSet(stories) {
        ChildrenAreStories(stories, parents, p, c);
      }
    }
  }

  /**
   * A story is a child of `p` exactly when it has a parent reference, that
   * reference resolved to `p`, and `p` is not empty; so each story is a child
   * at most once, and a story without `From:` never is.
   */
  lemma LinkMembership(stories: seq<Entry>, parents: seq<Option<string>>, i: nat, p: string)
    requires ValidParents(stories, IdSet(stories), parents) && DistinctIds(stories)
    requires i < |stories|
    ensures (p in LinksOf(stories, parents) && stories[i].id in LinksOf(stories, parents)[p])
      <==> (stories[i].story.fromFile.Some? && parents[i] == Some(p) && p != "")
    ensures p in LinksOf(stories, parents) ==> NoDuplicates(LinksOf(stories, parents)[p])
  {
    LinksAsFilter(stories, parents, p);
    var links := LinksOf(stories, parents);
    if p in links && stories[i].id in links[p] {
      ChildrenAreStories(stories, parents, p, stories[i].id);
      var j :| 0 <= j < |stories| && stories[j].id == stories[i].id && parents[j] == Some(p);
      assert j == i;
    }
    if parents[i] == Some(p) && p != "" {
      StoryIsChild(stories, parents, p, i);
    }
    ChildrenDistinct(stories, parents, p);
  }

  /**
   * Link order: within a parent's list, children appear in story order.
   */
  lemma LinkOrder(stories: seq<Entry>, parents: seq<Option<string>>, p: string, i: nat, j: nat)
    requires |parents| == |stories| && DistinctIds(stories)
    requires i < j < |stories| && parents[i] == Some(p) && parents[j] == Some(p) && p != ""
    ensures p in LinksOf(stories, parents)
    ensures var children := LinksOf(stories, parents)[p];
      && stories[i].id in children && stories[j].id in children
      && PosIn(children, stories[i].id) < PosIn(children, stories[j].id)
  {
    LinksAsFilter(stories, parents, p);
    ChildOrder(stories, parents, p, i, j);
  }

  /**
   * Append-only: the map after the first `n` stories is contained in the
   * final one, each list being a prefix of the final list.
   */
  lemma {:induction false} LinksGrowByAppending(stories: seq<Entry>, parents: seq<Option<string>>, n: nat)
    requires |parents| == |stories| && n <= |stories|
    ensures forall p :: p in LinksOf(stories[..n], parents[..n]) ==>
      p in LinksOf(stories, parents)
      && LinksOf(stories[..n], parents[..n])[p] <= LinksOf(stories, parents)[p]
    decreases |stories| - n
  {
    if n < |stories| {
      var m := |stories| - 1;
      assert stories[..m][..n] == stories[..n] && parents[..m][..n] == parents[..n];
      LinksGrowByAppending(stories[..m], parents[..m], n);
    } else {
      assert stories[..n] == stories && parents[..n] == parents;
    }
  }

  /**
   * Orphans: a story is reported exactly when it has a parent reference that
   * did not resolve to a non-empty identifier; it is then nobody's child.
   */
  lemma {:induction false} OrphanMembership(stories: seq<Entry>, parents: seq<Option<string>>, i: nat)
    requires |parents| == |stories| && DistinctIds(stories) && i < |stories|
    ensures stories[i].id in OrphansOf(stories, parents)
      <==> stories[i].story.fromFile.Some? && (parents[i] == None || parents[i] == Some(""))
    decreases |stories|
  {
    var n := |stories| - 1;
    if i < n {
      assert stories[..n][i] == stories[i] && parents[..n][i] == parents[i];
      OrphanMembership(stories[..n], parents[..n], i);
      assert stories[i].id != stories[n].id;
    } else {
      assert forall j :: 0 <= j < n ==> stories[..n][j].id != stories[n].id;
      NotAnOrphan(stories[..n], parents[..n], stories[n].id);
    }
  }

  /** An identifier that is no story's is never reported as an orphan. */
  lemma {:induction false} NotAnOrphan(stories: seq<Entry>, parents: seq<Option<string>>, c: string)
    requires |parents| == |stories|
    requires forall j :: 0 <= j < |stories| ==> stories[j].id != c
    ensures c !in OrphansOf(stories, parents)
    decreases |stories|
  {
    if stories != [] {
      var n := |stories| - 1;
      assert forall j :: 0 <= j < n ==> stories[..n][j].id != c;
      NotAnOrphan(stories[..n], parents[..n], c);
    }
  }

  /**
   * A story with an empty `From:` value is never a child and is reported,
   * whatever the identifiers: its reference resolves to nothing or to `""`,
   * which `if resolved_parent:` rejects.
   */
  lemma EmptyParentIsOrphan(stories: seq<Entry>, parents: seq<Option<string>>, i: nat)
    requires ValidParents(stories, IdSet(stories), parents) && DistinctIds(stories)
    requires i < |stories| && stories[i].story.fromFile == Some("")
    ensures stories[i].id in OrphansOf(stories, parents)
    ensures forall p :: p in LinksOf(stories, parents) ==> stories[i].id !in LinksOf(stories, parents)[p]
  {
    EmptyResolvesToEmpty(IdSet(stories), parents[i]);
    OrphanMembership(stories, parents, i);
    forall p | p in LinksOf(stories, parents) ensures stories[i].id !in LinksOf(stories, parents)[p] {
      LinkMembership(stories, parents, i, p);
    }
  }

  /** With non-empty identifiers, as every file stem is, an empty `From:` value resolves to nothing. */
  lemma EmptyParentUnresolved(stories: seq<Entry>, parents: seq<Option<string>>, i: nat)
    requires ValidParents(stories, IdSet(stories), parents)
    requires "" !in IdSet(stories)
    requires i < |stories| && stories[i].story.fromFile == Some("")
    ensures parents[i] == None
  {
    EmptyReferenceUnresolved(IdSet(stories), parents[i]);
  }

  /**
   * load_story_files after the directory has been read: parse every file,
   * keep the stories that parse, then build the links over them.
   */
  method LoadStoryFiles(files: seq<(string, string)>)
    returns (stories: seq<Entry>, links: map<string, seq<string>>, ghost parents: seq<Option<string>>)
    ensures stories == Load(files).0
    ensures ValidParents(stories, IdSet(stories), parents)
    ensures links == LinksOf(stories, parents)
  {
    var dropped;
    stories, dropped := LoadStories(files);
    var orphans;
    links, orphans, parents := BuildLinks(stories);
  }
}
