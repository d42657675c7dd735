/** The OS tag of `detect_os` (src/utils/command.rs): the build-time OS name,
    refined on Linux by the `ID=` entry of `/etc/os-release`. The file is an
    input: `None` when it could not be read, otherwise its lines. */
module Platform {
  import opened Wrappers
  import opened Strings

  const IdKey := "ID="

  /** Line `i` is the first line of `lines` that starts with `ID=`. */
  ghost predicate IsFirstIdLine(lines: seq<string>, i: int) {
    && 0 <= i < |lines|
    && StartsWith(lines[i], IdKey)
    && forall j :: 0 <= j < i ==> !StartsWith(lines[j], IdKey)
  }

  /** The value of the first `ID=` line (what follows the prefix), if any. */
  function FirstId(lines: seq<string>): (id: Option<string>)
    ensures id.None? <==> forall i :: 0 <= i < |lines| ==> !StartsWith(lines[i], IdKey)
    ensures id.Some? ==> exists i :: IsFirstIdLine(lines, i) && lines[i] == IdKey + id.value
    decreases |lines|
  {
    if |lines| == 0 then None
    else if StartsWith(lines[0], IdKey) then
      assert IsFirstIdLine(lines, 0) && lines[0] == IdKey + lines[0][|IdKey|..];
      Some(lines[0][|IdKey|..])
    else
      var rest := FirstId(lines[1..]);
      assert forall i :: 1 <= i < |lines| ==> lines[i] == lines[1..][i - 1];
      assert rest.Some? ==> exists i :: IsFirstIdLine(lines, i) && lines[i] == IdKey + rest.value by {
        if rest.Some? {
          var k :| IsFirstIdLine(lines[1..], k) && lines[1..][k] == IdKey + rest.value;
          assert IsFirstIdLine(lines, k + 1);
        }
      }
      rest
  }

  /** There is at most one first `ID=` line. */
  lemma FirstIdLineUnique(lines: seq<string>, i: int, k: int)
    requires IsFirstIdLine(lines, i) && IsFirstIdLine(lines, k)
    ensures i == k
  {
  }

  /** `detect_os`: the OS tag for the build-time OS name `os` and the
      snapshot `osRelease` of `/etc/os-release`. */
  function DetectOs(os: string, osRelease: Option<seq<string>>): (tag: string)
    ensures os != "linux" ==> tag == os
    ensures os == "linux" && osRelease.Some? ==>
      forall i :: IsFirstIdLine(osRelease.value, i) ==> tag == "linux/" + osRelease.value[i][|IdKey|..]
    ensures (os == "linux" && osRelease.Some? &&
             forall i :: 0 <= i < |osRelease.value| ==> !StartsWith(osRelease.value[i], IdKey)) ==>
            tag == "linux"
    ensures os == "linux" && osRelease.None? ==> tag == "linux"
  {
    if os == "linux" && osRelease.Some? then
      match FirstId(osRelease.value)
      case Some(id) =>
        assert forall i :: IsFirstIdLine(osRelease.value, i) ==> osRelease.value[i][|IdKey|..] == id by {
          forall i | IsFirstIdLine(osRelease.value, i)
            ensures osRelease.value[i][|IdKey|..] == id
          {
            var k :| IsFirstIdLine(osRelease.value, k) && osRelease.value[k] == IdKey + id;
            FirstIdLineUnique(osRelease.value, i, k);
          }
        }
        os + "/" + id
      case None => os
    else
      os
  }

  /** The first `ID=` line wins: a `NAME=` line, then `ID=<first>`, then
      `ID=<second>` (for instance `ID=ubuntu` before `ID=debian`) give
      `linux/<first>`. */
  lemma DetectOsFirstIdWins(other: string, first: string, second: string)
    requires !StartsWith(other, IdKey)
    ensures DetectOs("linux", Some([other, IdKey + first, IdKey + second])) == "linux/" + first
  {
    var lines := [other, IdKey + first, IdKey + second];
    assert lines[1][..|IdKey|] == IdKey && lines[1][|IdKey|..] == first;
    assert IsFirstIdLine(lines, 1);
  }
}
