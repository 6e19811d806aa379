/** Machine integers, addresses and the option type shared by every module. */
module Base {
  type u16 = x: int | 0 <= x < 0x1_0000
  type u32 = x: int | 0 <= x < 0x1_0000_0000
  type u64 = x: int | 0 <= x < 0x1_0000_0000_0000_0000

  // An Ethernet address. memcmp over its six bytes is the order of this big-endian number.
  type Mac = x: int | 0 <= x < 0x1_0000_0000_0000

  const U32_MAX: u32 := 0xFFFF_FFFF

  datatype Option<+T> = None | Some(value: T)

  // A sequence of pairwise different numbers below n has at most n members.
  lemma {:induction false} Pigeonhole(s: seq<int>, n: nat)
    requires forall i, j :: 0 <= i < j < |s| ==> s[i] != s[j]
    requires forall i :: 0 <= i < |s| ==> 0 <= s[i] < n
    ensures |s| <= n
  {
    if |s| == 0 {
      return;
    }
    assert 0 <= s[0] < n;
    if exists i :: 0 <= i < |s| && s[i] == n - 1 {
      var i :| 0 <= i < |s| && s[i] == n - 1;
      Pigeonhole(s[..i] + s[i + 1..], n - 1);
    } else {
      Pigeonhole(s, n - 1);
    }
  }
}
