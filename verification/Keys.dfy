/** Keys of the running-server map: one per (volume, host) pair (builtin/govolume.go). */
module Keys {

  /** attachKey. */
  function AttachKey(volume: string, host: string): string {
    volume + "|" + host
  }

  /** hasVolumePrefix, index by index as the source tests it. */
  predicate HasVolumePrefix(key: string, volume: string) {
    |key| > |volume| && key[..|volume|] == volume && key[|volume|] == '|'
  }

  /** The prefix test asks whether the key is some attach key of the volume. */
  lemma PrefixMeansSomeHost(key: string, volume: string)
    ensures HasVolumePrefix(key, volume) <==> exists host :: key == AttachKey(volume, host)
  {
    if HasVolumePrefix(key, volume) {
      assert key == AttachKey(volume, key[|volume| + 1..]);
    }
    if host :| key == AttachKey(volume, host) {
      assert key[..|volume|] == volume;
    }
  }

  /** For a '|'-free volume the prefix test singles out that volume's keys. */
  lemma PrefixIsolatesVolume(v: string, h: string, u: string)
    requires '|' !in v && '|' !in u
    ensures HasVolumePrefix(AttachKey(v, h), u) <==> u == v
  {
    var key := AttachKey(v, h);
    assert key[|v|] == '|' && key[..|v|] == v;
    assert forall i :: 0 <= i < |v| ==> key[i] == v[i] != '|';
    assert |u| <= |key| ==> forall i :: 0 <= i < |u| ==> key[i] == key[..|u|][i];
  }

  /** Two attach keys agree only for the same pair, when both volumes are '|'-free. */
  lemma AttachKeyInjective(v1: string, h1: string, v2: string, h2: string)
    requires '|' !in v1 && '|' !in v2
    requires AttachKey(v1, h1) == AttachKey(v2, h2)
    ensures v1 == v2 && h1 == h2
  {
    var key := AttachKey(v2, h2);
    assert key[..|v2|] == v2 && key[|v2| + 1..] == h2;
    PrefixIsolatesVolume(v1, h1, v2);
    assert AttachKey(v1, h1)[|v1| + 1..] == h1;
  }

  /**
   * For any UUIDs, with '|' or not: no host of v has a key that passes for u's, if and only if neither UUID is
   * the other followed by '|' and something.
   */
  lemma PrefixIsolatesExactly(v: string, u: string)
    requires u != v
    ensures (forall h :: !HasVolumePrefix(AttachKey(v, h), u)) <==> !(u + "|" <= v) && !(v + "|" <= u)
  {
    if u + "|" <= v {
      assert AttachKey(v, "")[..|u|] == u && AttachKey(v, "")[|u|] == '|';
    } else if v + "|" <= u {
      var h := u[|v| + 1..] + "|";
      assert AttachKey(v, h) == u + "|";
    } else {
      forall h ensures !HasVolumePrefix(AttachKey(v, h), u) {
        if HasVolumePrefix(AttachKey(v, h), u) {
          CollisionMeansPrefix(v, h, u);
        }
      }
    }
  }

  lemma CollisionMeansPrefix(v: string, h: string, u: string)
    requires HasVolumePrefix(AttachKey(v, h), u)
    ensures u == v || u + "|" <= v || v + "|" <= u
  {
    var key := AttachKey(v, h);
    if |u| < |v| {
      assert v[..|u| + 1] == key[..|u| + 1] == u + "|";
    } else if |u| > |v| {
      assert u[..|v| + 1] == key[..|u|][..|v| + 1] == v + "|";
    } else {
      assert u == key[..|v|] == v;
    }
  }

  /** A '|' in a volume UUID defeats both: "a" then claims the keys of "a|b". */
  lemma BarInVolumeCollides()
    ensures AttachKey("a|b", "c") == AttachKey("a", "b|c") == "a|b|c"
    ensures HasVolumePrefix(AttachKey("a|b", "c"), "a")
  {
  }
}
