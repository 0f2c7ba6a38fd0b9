/**
 * The interactive part of main.py: reading a choice number
 * (get_user_choice) and walking the story graph (play_game).
 *
 * The player's lines are a sequence of inputs, each already converted by
 * `int`: `Some(n)` for a line that is a number, `None` for one that is not.
 * Running out of input ends the walk unfinished.
 */
module Game {
  import opened Wrappers
  import opened Text
  import opened Fragment
  import opened Links
  import opened Root

  /** get_user_choice accepts a number from 1 to `maxChoice`. */
  predicate Accepts(maxChoice: int, input: Option<int>) {
    input.Some? && 1 <= input.value <= maxChoice
  }

  /** The position of the first accepted input, or `|inputs|` when none is. */
  function Chosen(maxChoice: int, inputs: seq<Option<int>>): (k: nat)
    ensures k <= |inputs|
    ensures k < |inputs| ==> Accepts(maxChoice, inputs[k])
    ensures forall j :: 0 <= j < k ==> !Accepts(maxChoice, inputs[j])
  {
    if inputs == [] then 0
    else if Accepts(maxChoice, inputs[0]) then 0
    else 1 + Chosen(maxChoice, inputs[1..])
  }

  /**
   * get_user_choice: ask again after every line that is not a number or is
   * out of range; return the first accepted number and how many lines were
   * read.
   */
  method GetUserChoice(maxChoice: int, inputs: seq<Option<int>>) returns (choice: Option<int>, consumed: nat)
    ensures choice.Some? ==> 1 <= choice.value <= maxChoice
    ensures var k := Chosen(maxChoice, inputs);
      if k < |inputs| then choice == inputs[k] && consumed == k + 1
      else choice == None && consumed == |inputs|
  {
    consumed := 0;
    while consumed < |inputs|
      invariant consumed <= |inputs|
      invariant forall j :: 0 <= j < consumed ==> !Accepts(maxChoice, inputs[j])
    {
      var input := inputs[consumed];
      consumed := consumed + 1;
      if input.Some? && 1 <= input.value <= maxChoice {
        return input, consumed;
      }
    }
    return None, consumed;
  }

  /** The choices offered at a story: its children, or none. */
  function Choices(links: map<string, seq<string>>, current: string): (r: seq<string>)
    ensures forall c :: c in r ==> current in links && c in links[current]
    ensures r == [] <==> current !in links || links[current] == []
  {
    if current in links then links[current] else []
  }

  /** The stories shown, in order, and whether the last one was an ending. */
  datatype Trail = Trail(path: seq<string>, finished: bool)

  /** How a game goes: no starting story, or the trail from the root. */
  datatype Outcome = NoStartingStory | Played(trail: Trail)

  /** The trail `t` with `shown` displayed before it. */
  function Extend(shown: seq<string>, t: Trail): Trail {
    Trail(shown + t.path, t.finished)
  }

  /**
   * One round at a story with choices: the story picked by the first
   * accepted input and the inputs left after it, or `None` when the input
   * runs out first.
   */
  function Step(choices: seq<string>, inputs: seq<Option<int>>): (r: Option<(string, seq<Option<int>>)>)
    ensures r.Some? ==> r.value.0 in choices && |r.value.1| < |inputs|
    ensures r.None? <==> forall j :: 0 <= j < |inputs| ==> !Accepts(|choices|, inputs[j])
  {
    var k := Chosen(|choices|, inputs);
    if k == |inputs| then None
    else Some((choices[inputs[k].value - 1], inputs[k + 1..]))
  }

  /** The walk from `current`: show it, end if it has no choices, else follow the first accepted choice. */
  function Walk(links: map<string, seq<string>>, current: string, inputs: seq<Option<int>>): Trail
    decreases |inputs|
  {
    var choices := Choices(links, current);
    if choices == [] then Trail([current], true)
    else match Step(choices, inputs)
      case None => Trail([current], false)
      case Some((next, rest)) => Extend([current], Walk(links, next, rest))
  }

  /** play_game: nothing to play without a (non-empty) root, else the walk from the root. */
  function Play(stories: seq<Entry>, links: map<string, seq<string>>, inputs: seq<Option<int>>): Outcome {
    var root := RootOf(stories);
    if root.None? || root.value == "" then NoStartingStory
    else Played(Walk(links, root.value, inputs))
  }

  /** play_game: find the root, give up without one, else play from it. */
  method PlayGame(stories: seq<Entry>, links: map<string, seq<string>>, inputs: seq<Option<int>>)
    returns (outcome: Outcome)
    ensures outcome == Play(stories, links, inputs)
  {
    var root := FindRootStory(stories);
    if root.None? || root.value == "" {
      return NoStartingStory;
    }
    var trail := Explore(links, root.value, inputs);
    return Played(trail);
  }

  /** play_game's loop: show the story, stop at an ending, else read a choice and move on. */
  method Explore(links: map<string, seq<string>>, start: string, inputs: seq<Option<int>>) returns (trail: Trail)
    ensures trail == Walk(links, start, inputs)
  {
    var current := start;
    var shown: seq<string> := [];
    var rest := inputs;
    assert Extend(shown, Walk(links, current, rest)).path == Walk(links, current, rest).path;
    while true
      invariant Walk(links, start, inputs) == Extend(shown, Walk(links, current, rest))
      decreases |rest|
    {
      var choices := Choices(links, current);
      if choices == [] {
        return Trail(shown + [current], true);
      }
      var choice, consumed := GetUserChoice(|choices|, rest);
      WalkAfterChoice(links, current, rest, choice, consumed);
      if choice.None? {
        return Trail(shown + [current], false);
      }
      var next := choices[choice.value - 1];
      ExtendTwice(shown, current, Walk(links, next, rest[consumed..]));
      shown := shown + [current];
      current := next;
      rest := rest[consumed..];
    }
  }

  /** The walk from a story with choices, given what get_user_choice read. */
  lemma WalkAfterChoice(links: map<string, seq<string>>, current: string, inputs: seq<Option<int>>,
                        choice: Option<int>, consumed: nat)
    requires Choices(links, current) != []
    requires var k := Chosen(|Choices(links, current)|, inputs);
      if k < |inputs| then choice == inputs[k] && consumed == k + 1
      else choice == None && consumed == |inputs|
    ensures choice.None? ==> Walk(links, current, inputs) == Trail([current], false)
    ensures choice.Some? ==>
      && 1 <= choice.value <= |Choices(links, current)| && consumed <= |inputs|
      && Walk(links, current, inputs)
        == Extend([current], Walk(links, Choices(links, current)[choice.value - 1], inputs[consumed..]))
  {
    var choices := Choices(links, current);
    if choice.None? {
      assert Step(choices, inputs) == None;
    } else {
      assert Step(choices, inputs) == Some((choices[choice.value - 1], inputs[consumed..]));
    }
  }

  /**
   * Two menus over the choices `[b, a]`: input `1` goes to `b`; after a
   * line that is not a number, `0` and `99` are rejected and `2` goes to `a`.
   */
  lemma WalkExample()
    ensures Walk(map["start" := ["b", "a"]], "start", [Some(1)]) == Trail(["start", "b"], true)
    ensures Walk(map["start" := ["b", "a"]], "start", [None, Some(0), Some(99), Some(2)])
      == Trail(["start", "a"], true)
  {
    var links := map["start" := ["b", "a"]];
    assert Choices(links, "b") == [] && Choices(links, "a") == [];
    var inputs := [None, Some(0), Some(99), Some(2)];
    assert Chosen(2, inputs) == 3 by {
      assert inputs[1..] == [Some(0), Some(99), Some(2)];
      assert inputs[1..][1..] == [Some(99), Some(2)];
      assert inputs[1..][1..][1..] == [Some(2)];
    }
    assert Step(["b", "a"], inputs) == Some(("a", []));
    assert Step(["b", "a"], [Some(1)]) == Some(("b", []));
  }

  lemma ExtendTwice(shown: seq<string>, current: string, t: Trail)
    ensures Extend(shown, Extend([current], t)) == Extend(shown + [current], t)
  {
    assert shown + ([current] + t.path) == (shown + [current]) + t.path;
  }

  /** A walk starts at the story it is started from. */
  lemma WalkStartsAt(links: map<string, seq<string>>, current: string, inputs: seq<Option<int>>)
    ensures Walk(links, current, inputs).path != [] && Walk(links, current, inputs).path[0] == current
  {
  }

  /** Each step of a walk follows a link: the next story is one of the current story's choices. */
  lemma {:induction false} WalkFollowsLinks(links: map<string, seq<string>>, current: string, inputs: seq<Option<int>>)
    ensures var path := Walk(links, current, inputs).path;
      forall k :: 0 <= k < |path| - 1 ==> path[k] in links && path[k + 1] in links[path[k]]
    decreases |inputs|
  {
    var choices := Choices(links, current);
    if choices != [] && Step(choices, inputs).Some? {
      var (next, left) := Step(choices, inputs).value;
      assert next in links[current];
      WalkFollowsLinks(links, next, left);
      WalkStartsAt(links, next, left);
      var rest := Walk(links, next, left).path;
      var path := Walk(links, current, inputs).path;
      assert path == [current] + rest;
      forall j | 0 <= j < |path| - 1 ensures path[j] in links && path[j + 1] in links[path[j]] {
        if j == 0 {
          assert path[1] == rest[0] == next;
        } else {
          assert path[j] == rest[j - 1] && path[j + 1] == rest[j];
        }
      }
    }
  }

  /**
   * A walk ends at a story without choices when it is finished, and at one
   * with choices when the input ran out; it shows at most one story more
   * than the lines it reads.
   */
  lemma {:induction false} WalkEnds(links: map<string, seq<string>>, current: string, inputs: seq<Option<int>>)
    ensures var o := Walk(links, current, inputs);
      && o.path != []
      && (o.finished <==> Choices(links, o.path[|o.path| - 1]) == [])
      && |o.path| <= |inputs| + 1
    decreases |inputs|
  {
    var choices := Choices(links, current);
    if choices == [] {
      assert Walk(links, current, inputs) == Trail([current], true);
    } else if Step(choices, inputs).None? {
      assert Walk(links, current, inputs) == Trail([current], false);
    } else {
      var (next, left) := Step(choices, inputs).value;
      WalkEnds(links, next, left);
      var t := Walk(links, next, left);
      var o := Walk(links, current, inputs);
      assert o == Extend([current], t);
      assert o.path[|o.path| - 1] == t.path[|t.path| - 1];
    }
  }

  /** Links that only name stories keep every walk from a story inside the stories. */
  lemma WalkWithinStories(ids: set<string>, links: map<string, seq<string>>, current: string, inputs: seq<Option<int>>)
    requires current in ids
    requires forall p, c :: p in links && c in links[p] ==> c in ids
    ensures forall s :: s in Walk(links, current, inputs).path ==> s in ids
  {
    var path := Walk(links, current, inputs).path;
    WalkFollowsLinks(links, current, inputs);
    WalkStartsAt(links, current, inputs);
    forall k | 0 <= k < |path| ensures path[k] in ids {
      WalkStep(ids, links, path, k);
    }
  }

  /** Induction along a path whose steps follow links. */
  lemma {:induction false} WalkStep(ids: set<string>, links: map<string, seq<string>>, path: seq<string>, k: nat)
    requires path != [] && path[0] in ids && k < |path|
    requires forall p, c :: p in links && c in links[p] ==> c in ids
    requires forall j :: 0 <= j < |path| - 1 ==> path[j] in links && path[j + 1] in links[path[j]]
    ensures path[k] in ids
  {
    if k > 0 {
      WalkStep(ids, links, path, k - 1);
      assert path[k - 1] in links && path[k] in links[path[k - 1]];
    }
  }

  /** There is nothing to play exactly when there is no story, or the root's name is empty. */
  lemma PlayNeedsRoot(stories: seq<Entry>, links: map<string, seq<string>>, inputs: seq<Option<int>>)
    ensures Play(stories, links, inputs) == NoStartingStory
      <==> stories == [] || RootOf(stories) == Some("")
    ensures Play(stories, links, inputs).Played? ==>
      && Play(stories, links, inputs).trail.path != []
      && Play(stories, links, inputs).trail.path[0] == RootOf(stories).value
  {
    RootExists(stories);
    if RootOf(stories).Some? {
      WalkStartsAt(links, RootOf(stories).value, inputs);
    }
  }

  /**
   * Playing over the links built from the stories only ever shows stories:
   * the lookup `stories[current_story]` always finds its story.
   */
  lemma PlayShowsStories(stories: seq<Entry>, parents: seq<Option<string>>, inputs: seq<Option<int>>)
    requires ValidParents(stories, IdSet(stories), parents)
    ensures var o := Play(stories, LinksOf(stories, parents), inputs);
      o.Played? ==> forall s :: s in o.trail.path ==> s in IdSet(stories)
  {
    var links := LinksOf(stories, parents);
    RootExists(stories);
    LinksWithinStories(stories, parents);
    var root := RootOf(stories);
    if root.Some? && root.value != "" {
      WalkWithinStories(IdSet(stories), links, root.value, inputs);
    }
  }
}
