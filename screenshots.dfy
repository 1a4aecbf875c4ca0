/**
 * The state `DeviceScreenService` keeps between requests: the list of
 * saved screenshot files, of which only the newest `MAX_SCREENSHOTS` are
 * kept, and the `/api/device-screen` request that captures one snapshot.
 */
module Screenshots {
  import opened Wrappers
  import opened Hierarchy
  import opened Identifiers
  import opened Ordering

  const MAX_SCREENSHOTS: nat := 10

  /** A screenshot file in the screenshot directory, by its name (`<uuid>.png`). */
  datatype File = File(name: string)

  /** `DeviceScreen`: the response payload. */
  datatype DeviceScreen = DeviceScreen(screenshot: string, width: int, height: int, elements: seq<UIElement>)

  /** The retention list after appending `shot` and evicting from the front while it holds more than the maximum. */
  function Retain(saved: seq<File>, shot: File): seq<File> {
    var all := saved + [shot];
    if |all| > MAX_SCREENSHOTS then all[|all| - MAX_SCREENSHOTS..] else all
  }

  /** The files that the same step removes from the front of the list, oldest first. */
  function Evicted(saved: seq<File>, shot: File): seq<File> {
    var all := saved + [shot];
    if |all| > MAX_SCREENSHOTS then all[..|all| - MAX_SCREENSHOTS] else []
  }

  /**
   * One step keeps at most `MAX_SCREENSHOTS` files with the new one last;
   * the evicted files are the oldest ones, and the evicted files followed by
   * the kept ones are exactly the old list with the new file appended, so
   * the kept files are in their old order. A list already within the bound
   * loses at most its oldest file.
   */
  lemma RetainStep(saved: seq<File>, shot: File)
    ensures |Retain(saved, shot)| <= MAX_SCREENSHOTS
    ensures Retain(saved, shot)[|Retain(saved, shot)| - 1] == shot
    ensures Evicted(saved, shot) + Retain(saved, shot) == saved + [shot]
    ensures |saved| < MAX_SCREENSHOTS ==> Evicted(saved, shot) == []
    ensures |saved| == MAX_SCREENSHOTS ==> Evicted(saved, shot) == [saved[0]]
  {
    var all := saved + [shot];
    if |all| > MAX_SCREENSHOTS {
      assert all[..|all| - MAX_SCREENSHOTS] + all[|all| - MAX_SCREENSHOTS..] == all;
    }
  }

  /** The retention list after saving `shots` one after the other. */
  function RetainAll(saved: seq<File>, shots: seq<File>): seq<File> {
    if shots == [] then saved
    else Retain(RetainAll(saved, shots[..|shots| - 1]), shots[|shots| - 1])
  }

  /** The files deleted while saving `shots` one after the other, in order. */
  function EvictedAll(saved: seq<File>, shots: seq<File>): seq<File> {
    if shots == [] then []
    else
      EvictedAll(saved, shots[..|shots| - 1]) +
      Evicted(RetainAll(saved, shots[..|shots| - 1]), shots[|shots| - 1])
  }

  /**
   * Starting from an empty list, after any number of captures the list
   * holds the newest `MAX_SCREENSHOTS` files in capture order, and the
   * deleted files are all the older ones, oldest first.
   */
  lemma {:induction false} RetainAllKeepsNewest(shots: seq<File>)
    ensures var keep := if |shots| > MAX_SCREENSHOTS then |shots| - MAX_SCREENSHOTS else 0;
      RetainAll([], shots) == shots[keep..] && EvictedAll([], shots) == shots[..keep]
  {
    if shots != [] {
      var init, last := shots[..|shots| - 1], shots[|shots| - 1];
      RetainAllKeepsNewest(init);
      var keep := if |init| > MAX_SCREENSHOTS then |init| - MAX_SCREENSHOTS else 0;
      var all := init[keep..] + [last];
      assert RetainAll([], shots) == Retain(init[keep..], last);
      assert EvictedAll([], shots) == init[..keep] + Evicted(init[keep..], last);
      assert all == shots[keep..];
      assert init[..keep] == shots[..keep];
      if |shots| > MAX_SCREENSHOTS {
        var k := |shots| - MAX_SCREENSHOTS;
        assert keep == k - 1 && |all| == MAX_SCREENSHOTS + 1;
        assert Retain(init[keep..], last) == all[1..] == shots[k..];
        assert Evicted(init[keep..], last) == [shots[keep]];
        assert shots[..keep] + [shots[keep]] == shots[..k];
      }
    }
  }

  /** Eleven captures: the ten newest files remain and the first one is deleted. */
  lemma ElevenCaptures(shots: seq<File>)
    requires |shots| == MAX_SCREENSHOTS + 1
    ensures RetainAll([], shots) == shots[1..]
    ensures EvictedAll([], shots) == [shots[0]]
  {
    RetainAllKeepsNewest(shots);
  }

  /**
   * `object DeviceScreenService`: the retention list `savedScreenshots` and,
   * standing for the screenshot directory, the set of files it holds.
   */
  class DeviceScreenService {
    var savedScreenshots: seq<File>
    var stored: set<File>

    /** At most `MAX_SCREENSHOTS` files, each once, and the directory holds exactly the listed ones. */
    ghost predicate Valid()
      reads this
    {
      && |savedScreenshots| <= MAX_SCREENSHOTS
      && NoRepeats(savedScreenshots)
      && stored == set f | f in savedScreenshots
    }

    constructor ()
      ensures Valid() && savedScreenshots == [] && stored == {}
    {
      savedScreenshots := [];
      stored := {};
    }

    /**
     * `savedScreenshots.add(screenshotFile)` followed by
     * `while (size > MAX_SCREENSHOTS) removeFirst().delete()`. The new file
     * has a fresh random name, so it is not in the directory yet.
     */
    method Save(shot: File)
      requires Valid()
      requires shot !in stored
      modifies this
      ensures Valid()
      ensures savedScreenshots == Retain(old(savedScreenshots), shot)
      ensures stored == old(stored) + {shot} - set f | f in Evicted(old(savedScreenshots), shot)
    {
      ghost var all := savedScreenshots + [shot];
      ghost var k := 0;
      savedScreenshots := savedScreenshots + [shot];
      stored := stored + {shot};
      while |savedScreenshots| > MAX_SCREENSHOTS
        invariant 0 <= k <= |all|
        invariant savedScreenshots == all[k..]
        invariant k > 0 ==> |all| - k >= MAX_SCREENSHOTS
        invariant stored == (set f | f in all) - (set f | f in all[..k])
        decreases |savedScreenshots|
      {
        var oldest := savedScreenshots[0];
        savedScreenshots := savedScreenshots[1..];
        stored := stored - {oldest};
        k := k + 1;
        assert all[..k] == all[..k - 1] + [oldest];
      }
      assert NoRepeats(all);
    }

    /**
     * `GET /api/device-screen`. The hierarchy is captured first; when that
     * fails (`None`) the request fails and nothing is saved. Otherwise the
     * screenshot file is saved (whether or not writing it succeeded), and
     * the response names it and lists the elements of the hierarchy.
     */
    method DeviceScreenRequest(hierarchy: Option<Node>, shot: File, width: int, height: int,
                               filters: Filters, token: nat -> string)
      returns (response: Option<DeviceScreen>)
      requires Valid()
      requires shot !in stored
      modifies this
      ensures Valid()
      ensures hierarchy.None? ==> response.None? && unchanged(this)
      ensures hierarchy.Some? ==>
        && savedScreenshots == Retain(old(savedScreenshots), shot)
        && stored == old(stored) + {shot} - set f | f in Evicted(old(savedScreenshots), shot)
        && response == Some(DeviceScreen("/screenshot/" + shot.name, width, height,
                                         Synthesize(Elements(hierarchy.value, filters), filters, token)))
    {
      if hierarchy.None? {
        return None;
      }
      var tree := hierarchy.value;
      Save(shot);
      var elements := TreeToElements(tree, filters, token);
      response := Some(DeviceScreen("/screenshot/" + shot.name, width, height, elements));
    }
  }
}
