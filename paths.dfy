/** Field paths: the segments from the root value down to the one being validated. */
module Paths {
  import opened Text

  /** Property names and `index-<i>` markers, outermost first. */
  type Path = seq<string>

  /** `propNames.join('.')`: the key of a string, number or boolean node's error (no fallback). */
  function Joined(path: Path): string {
    Join(path, ".")
  }

  /** The key of an object or array node's own error: the joined path, or "body" at the root. */
  function PathOrBody(path: Path): (key: string)
    ensures |path| == 0 ==> key == "body"
    ensures |path| > 0 ==> key == Joined(path)
  {
    if |path| > 0 then Joined(path) else "body"
  }

  /** The text put before a child's own segment: the joined path and a dot, or nothing at the root. */
  function KeyPrefix(path: Path): string {
    if |path| > 0 then Joined(path) + "." else ""
  }

  /** The segment that marks element i of an array: `index-<i>`. */
  function IndexSegment(i: nat): string {
    "index-" + NatToString(i)
  }

  /** Writing a child's key by prefixing it is the same as joining the extended path. */
  lemma KeyPrefixJoins(path: Path, segment: string)
    ensures KeyPrefix(path) + segment == Joined(path + [segment])
  {
    if |path| > 0 {
      JoinSnoc(path, ".", segment);
    } else {
      assert path + [segment] == [segment];
    }
  }

  /** Distinct array indices name distinct segments. */
  lemma IndexSegmentInjective(i: nat, j: nat)
    requires IndexSegment(i) == IndexSegment(j)
    ensures i == j
  {
    assert NatToString(i) == IndexSegment(i)[6..] == IndexSegment(j)[6..] == NatToString(j);
    NatToStringInjective(i, j);
  }
}
