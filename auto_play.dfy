/**
 * The canvas search of the slot-game player: `find_canvas_in_frames` walks the
 * tree of browser frames of a loaded page and returns the first frame whose
 * first `canvas` element is visible.
 *
 * The browser calls collapse into one field per frame: `probe` is what asking
 * that frame for its first canvas and its visibility produced (visible, not
 * visible, or an exception). The `async`/`await` of the source are ordinary
 * sequential calls here.
 */
module FrameSearch {
  import opened Wrappers

  /** Outcome of `frame.locator("canvas").first.is_visible()` on one frame. */
  datatype Probe = Visible | Hidden | Raises

  /** A browser frame: its URL, its canvas probe and its child frames in order. */
  datatype Frame = Frame(url: string, probe: Probe, children: seq<Frame>)

  /**
   * `find_canvas_in_frames`: for each frame in order, a visible canvas returns
   * that frame; a hidden canvas or a raising probe falls through to the
   * frame's children (searched only when there are some), and a hit there is
   * returned; otherwise the search goes on with the next sibling.
   */
  function FindCanvas(frames: seq<Frame>): (r: Option<Frame>)
    ensures r.Some? ==> r.value.probe == Visible
    ensures r.Some? ==> r.value in Preorder(frames)
    decreases frames
  {
    if frames == [] then None
    else
      var frame := frames[0];
      if frame.probe == Visible then Some(frame)
      else
        var inChildren := if frame.children != [] then FindCanvas(frame.children) else None;
        if inChildren.Some? then inChildren
        else FindCanvas(frames[1..])
  }

  /** Pre-order flattening of a forest: each frame, then its subtree, then its later siblings. */
  function Preorder(frames: seq<Frame>): (r: seq<Frame>)
    ensures |r| >= |frames|
    ensures frames != [] ==> r[0] == frames[0]
    ensures forall k :: 0 <= k < |frames| ==> frames[k] in r
    decreases frames
  {
    if frames == [] then []
    else [frames[0]] + Preorder(frames[0].children) + Preorder(frames[1..])
  }

  /** The listing is closed under children: it holds every frame of the forest, at every depth. */
  lemma {:induction false} PreorderListsDescendants(frames: seq<Frame>, f: Frame)
    requires f in Preorder(frames)
    ensures forall k :: 0 <= k < |f.children| ==> f.children[k] in Preorder(frames)
    decreases frames
  {
    var first, rest := frames[0], frames[1..];
    assert Preorder(frames) == [first] + Preorder(first.children) + Preorder(rest);
    if f == first {
    } else if f in Preorder(first.children) {
      PreorderListsDescendants(first.children, f);
    } else {
      PreorderListsDescendants(rest, f);
    }
  }

  /** The first frame of a sequence whose probe is `Visible`, read left to right. */
  function FirstVisible(xs: seq<Frame>): (r: Option<Frame>)
    ensures r.None? <==> forall k :: 0 <= k < |xs| ==> xs[k].probe != Visible
    ensures r.Some? ==> exists k :: 0 <= k < |xs| && xs[k] == r.value && xs[k].probe == Visible &&
                           forall j :: 0 <= j < k ==> xs[j].probe != Visible
  {
    if xs == [] then None
    else if xs[0].probe == Visible then Some(xs[0])
    else
      var r := FirstVisible(xs[1..]);
      assert forall k :: 1 <= k < |xs| ==> xs[k] == xs[1..][k - 1];
      r
  }

  /** The first visible frame of `a + b` is the first of `a`, or else the first of `b`. */
  lemma {:induction false} FirstVisibleAppend(a: seq<Frame>, b: seq<Frame>)
    ensures FirstVisible(a + b) == if FirstVisible(a).Some? then FirstVisible(a) else FirstVisible(b)
  {
    if a != [] {
      assert (a + b)[1..] == a[1..] + b;
      FirstVisibleAppend(a[1..], b);
    } else {
      assert a + b == b;
    }
  }

  /**
   * The search is exactly "the first visible frame in pre-order": a frame is
   * probed before its children, and its whole subtree before its next sibling.
   */
  lemma {:induction false} FindCanvasIsFirstVisibleInPreorder(frames: seq<Frame>)
    ensures FindCanvas(frames) == FirstVisible(Preorder(frames))
    decreases frames
  {
    if frames != [] {
      var frame := frames[0];
      var subtree := Preorder(frame.children);
      var rest := Preorder(frames[1..]);
      assert Preorder(frames) == [frame] + (subtree + rest);
      if frame.probe != Visible {
        assert ([frame] + (subtree + rest))[1..] == subtree + rest;
        FirstVisibleAppend(subtree, rest);
        FindCanvasIsFirstVisibleInPreorder(frame.children);
        FindCanvasIsFirstVisibleInPreorder(frames[1..]);
      }
    }
  }

  /** `None` exactly when no frame anywhere in the forest has a visible canvas. */
  lemma NotFoundIffNoVisibleFrame(frames: seq<Frame>)
    ensures FindCanvas(frames).None? <==> forall f :: f in Preorder(frames) ==> f.probe != Visible
  {
    FindCanvasIsFirstVisibleInPreorder(frames);
  }

  /** The same frame with a raising probe replaced by a hidden canvas, throughout its subtree. */
  function Demoted(frame: Frame): (r: Frame)
    ensures r.url == frame.url && r.probe != Raises
    ensures frame.probe != Raises ==> r.probe == frame.probe
    ensures |r.children| == |frame.children|
    decreases frame, 0
  {
    Frame(frame.url, if frame.probe == Raises then Hidden else frame.probe, AllDemoted(frame.children))
  }

  function AllDemoted(frames: seq<Frame>): (r: seq<Frame>)
    ensures |r| == |frames|
    decreases frames, 1
  {
    if frames == [] then [] else [Demoted(frames[0])] + AllDemoted(frames[1..])
  }

  /**
   * A probe that raises never aborts the search: the result is the one the
   * search would give if that canvas were merely hidden, so the frame's
   * children and its later siblings are still examined.
   */
  lemma {:induction false} RaisingProbeActsAsHidden(frames: seq<Frame>)
    ensures FindCanvas(AllDemoted(frames)) ==
            (if FindCanvas(frames).Some? then Some(Demoted(FindCanvas(frames).value)) else None)
    decreases frames
  {
    if frames != [] {
      var frame := frames[0];
      var demoted := AllDemoted(frames);
      assert demoted[0] == Demoted(frame);
      assert demoted[1..] == AllDemoted(frames[1..]);
      if frame.probe != Visible {
        RaisingProbeActsAsHidden(frame.children);
        RaisingProbeActsAsHidden(frames[1..]);
      }
    }
  }
}
