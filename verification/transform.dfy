/**
 * The "at most one image transformation" rule enforced by `select_transform`
 * (jpegtran.c). The routine either records the requested transform or
 * rejects the request; the rejection is returned here instead of calling
 * `usage()` and exiting.
 */
module Transform {

  /** JXFORM_CODE: the lossless transformations libjpeg's transupp knows. */
  datatype XForm =
    | Identity      // JXFORM_NONE
    | FlipH
    | FlipV
    | Transpose
    | Transverse
    | Rot90
    | Rot180
    | Rot270
    | Wipe
    | Drop

  /** Transformations that exchange the image's width and height. */
  predicate SwapsAxes(t: XForm) {
    t == Transpose || t == Transverse || t == Rot90 || t == Rot270
  }

  datatype SelectError =
    | MultipleTransforms   // "can only do one image transformation at a time"
    | NotCompiled          // "sorry, image transformation was not compiled"

  datatype Selection = Selected(current: XForm) | Rejected(error: SelectError)

  /**
   * One call of `select_transform`: `current` is the transform recorded so
   * far and `supported` is the TRANSFORMS_SUPPORTED build switch.
   */
  function Select(current: XForm, requested: XForm, supported: bool): (r: Selection)
    ensures !supported ==> r == Rejected(NotCompiled)
    ensures supported ==> (r.Selected? <==> current == Identity || current == requested)
    ensures r.Selected? ==> r.current == requested
    ensures r.Rejected? && supported ==> r.error == MultipleTransforms
  {
    if !supported then Rejected(NotCompiled)
    else if current == Identity || current == requested then Selected(requested)
    else Rejected(MultipleTransforms)
  }

  /** The switch parser's sequence of `select_transform` calls, stopping at the first rejection. */
  function SelectAll(current: XForm, requests: seq<XForm>, supported: bool): Selection
    decreases |requests|
  {
    if |requests| == 0 then Selected(current)
    else
      match Select(current, requests[0], supported)
      case Rejected(e) => Rejected(e)
      case Selected(c) => SelectAll(c, requests[1..], supported)
  }

  /**
   * At most one transformation is asked for: once a request other than
   * `Identity` appears, every later request repeats it.
   */
  predicate AtMostOne(requests: seq<XForm>) {
    forall i, j :: 0 <= i < j < |requests| && requests[i] != Identity ==> requests[j] == requests[i]
  }

  /** The transform a consistent request sequence ends up selecting. */
  function Chosen(requests: seq<XForm>): XForm {
    if |requests| == 0 then Identity else requests[|requests| - 1]
  }

  /**
   * Starting from a recorded transform `current`, a sequence of requests is
   * accepted exactly when `current` followed by the requests asks for at
   * most one transformation, and then the last request wins.
   */
  lemma {:induction false} SelectAllFrom(current: XForm, requests: seq<XForm>)
    ensures SelectAll(current, requests, true).Selected? <==> AtMostOne([current] + requests)
    ensures SelectAll(current, requests, true).Selected? ==>
              SelectAll(current, requests, true).current == Chosen([current] + requests)
    decreases |requests|
  {
    var all := [current] + requests;
    if |requests| == 0 {
      assert all == [current];
    } else {
      var next := requests[0];
      var rest := requests[1..];
      var tail := [next] + rest;
      assert requests == tail;
      if current == Identity || current == next {
        SelectAllFrom(next, rest);
        assert all[1..] == tail;
        if AtMostOne(all) {
          forall i, j | 0 <= i < j < |tail| && tail[i] != Identity
            ensures tail[j] == tail[i]
          {
            assert all[i + 1] == tail[i] && all[j + 1] == tail[j];
          }
        }
        if AtMostOne(tail) {
          forall i, j | 0 <= i < j < |all| && all[i] != Identity
            ensures all[j] == all[i]
          {
            if i == 0 {
              assert all[1] == next;
              if j > 1 {
                assert all[j] == tail[j - 1] && tail[0] == next;
              }
            } else {
              assert all[i] == tail[i - 1] && all[j] == tail[j - 1];
            }
          }
        }
        assert Chosen(all) == Chosen(tail) by {
          assert all[|all| - 1] == tail[|tail| - 1];
        }
      } else {
        assert all[0] == current && all[1] == next;
        assert !AtMostOne(all);
      }
    }
  }

  /**
   * From the parser's initial state (`JXFORM_NONE`) the requests are accepted
   * exactly when they ask for at most one transformation; the selected
   * transform is then the last one requested.
   */
  lemma SelectAllSpec(requests: seq<XForm>)
    ensures SelectAll(Identity, requests, true).Selected? <==> AtMostOne(requests)
    ensures SelectAll(Identity, requests, true).Selected? ==>
              SelectAll(Identity, requests, true).current == Chosen(requests)
  {
    SelectAllFrom(Identity, requests);
    var all := [Identity] + requests;
    assert all[1..] == requests;
    if AtMostOne(requests) {
      forall i, j | 0 <= i < j < |all| && all[i] != Identity
        ensures all[j] == all[i]
      {
        assert all[i] == requests[i - 1] && all[j] == requests[j - 1];
      }
    }
    if AtMostOne(all) {
      forall i, j | 0 <= i < j < |requests| && requests[i] != Identity
        ensures requests[j] == requests[i]
      {
        assert all[i + 1] == requests[i] && all[j + 1] == requests[j];
      }
    }
    if |requests| > 0 {
      assert all[|all| - 1] == requests[|requests| - 1];
    }
  }

  /** Without transform support, any request at all is rejected. */
  lemma {:induction false} UnsupportedRejects(current: XForm, requests: seq<XForm>)
    requires |requests| > 0
    ensures SelectAll(current, requests, false) == Rejected(NotCompiled)
  {
  }
}
