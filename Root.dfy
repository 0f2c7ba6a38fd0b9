/**
 * Choosing where the adventure begins (main.py, find_root_story): the first
 * story, in dictionary order, that has no `From:` line; failing that the
 * story "start"; failing that the identifier that sorts first; and nothing
 * when there are no stories.
 */
module Root {
  import opened Wrappers
  import opened Text
  import opened Fragment

  /** The keys of the stories dictionary, in order. */
  function Ids(stories: seq<Entry>): (ids: seq<string>)
    ensures |ids| == |stories|
    ensures forall i :: 0 <= i < |stories| ==> ids[i] == stories[i].id
  {
    seq(|stories|, i requires 0 <= i < |stories| => stories[i].id)
  }

  /** The position of the first story without a `From:` line, or `|stories|` when every story has one. */
  function FirstTopLevel(stories: seq<Entry>): (k: nat)
    ensures k <= |stories|
    ensures forall j :: 0 <= j < k ==> stories[j].story.fromFile.Some?
    ensures k < |stories| ==> stories[k].story.fromFile.None?
  {
    if stories == [] then 0
    else if stories[0].story.fromFile.None? then 0
    else 1 + FirstTopLevel(stories[1..])
  }

  /** The story find_root_story returns. */
  function RootOf(stories: seq<Entry>): Option<string> {
    var k := FirstTopLevel(stories);
    if k < |stories| then Some(stories[k].id)
    else if "start" in IdSet(stories) then Some("start")
    else if stories != [] then Some(Smallest(Ids(stories)))
    else None
  }

  /** find_root_story: scan for a story without a parent, then fall back. */
  method FindRootStory(stories: seq<Entry>) returns (root: Option<string>)
    ensures root == RootOf(stories)
  {
    for i := 0 to |stories|
      invariant forall j :: 0 <= j < i ==> stories[j].story.fromFile.Some?
    {
      if stories[i].story.fromFile.None? {
        return Some(stories[i].id);
      }
    }
    if "start" in IdSet(stories) {
      return Some("start");
    }
    if stories != [] {
      return Some(Smallest(Ids(stories)));
    }
    return None;
  }

  /** There is a root exactly when there is a story, and the root is one of the stories. */
  lemma RootExists(stories: seq<Entry>)
    ensures RootOf(stories).None? <==> stories == []
    ensures RootOf(stories).Some? ==> RootOf(stories).value in IdSet(stories)
  {
    var k := FirstTopLevel(stories);
    if k < |stories| {
      assert stories[k] in stories;
    } else if "start" !in IdSet(stories) && stories != [] {
      var m := Smallest(Ids(stories));
      var i :| 0 <= i < |stories| && Ids(stories)[i] == m;
      assert stories[i] in stories;
    }
  }

  /**
   * A story without a parent wins when every story before it has one: the
   * first such story in dictionary order is the root, whatever its name.
   */
  lemma RootIsFirstTopLevel(stories: seq<Entry>, i: nat)
    requires i < |stories| && stories[i].story.fromFile.None?
    requires forall j :: 0 <= j < i ==> stories[j].story.fromFile.Some?
    ensures RootOf(stories) == Some(stories[i].id)
  {
    var k := FirstTopLevel(stories);
    assert k == i;
  }

  /** Whenever some story has no parent, the root is a story without a parent. */
  lemma RootHasNoParent(stories: seq<Entry>, i: nat)
    requires i < |stories| && stories[i].story.fromFile.None?
    ensures exists j :: 0 <= j <= i && RootOf(stories) == Some(stories[j].id) && stories[j].story.fromFile.None?
  {
    var k := FirstTopLevel(stories);
    assert k <= i;
    assert RootOf(stories) == Some(stories[k].id);
  }

  /** With every story linked to a parent, "start" is chosen when it exists. */
  lemma RootStartFallback(stories: seq<Entry>)
    requires forall j :: 0 <= j < |stories| ==> stories[j].story.fromFile.Some?
    requires "start" in IdSet(stories)
    ensures RootOf(stories) == Some("start")
  {
    var k := FirstTopLevel(stories);
    assert k == |stories|;
  }

  /**
   * With every story linked to a parent and no "start", the root is the
   * identifier that sorts first, comparing code points as Python does.
   */
  lemma RootSmallestFallback(stories: seq<Entry>)
    requires stories != []
    requires forall j :: 0 <= j < |stories| ==> stories[j].story.fromFile.Some?
    requires "start" !in IdSet(stories)
    ensures RootOf(stories).Some?
    ensures RootOf(stories).value in IdSet(stories)
    ensures forall e :: e in stories ==> LexLe(RootOf(stories).value, e.id)
  {
    var k := FirstTopLevel(stories);
    assert k == |stories|;
    RootExists(stories);
    var ids := Ids(stories);
    forall e | e in stories ensures LexLe(RootOf(stories).value, e.id) {
      var i :| 0 <= i < |stories| && stories[i] == e;
      assert ids[i] == e.id;
    }
  }

  /**
   * Two stories without a parent: the earlier one in dictionary order is the
   * root even when the later one sorts first.
   */
  lemma RootFollowsOrderNotName()
    ensures RootOf([Entry("b", Story(None, "B", "b")), Entry("a", Story(None, "A", "a"))]) == Some("b")
  {
    RootIsFirstTopLevel([Entry("b", Story(None, "B", "b")), Entry("a", Story(None, "A", "a"))], 0);
  }
}
