/** IPv4 networks in CIDR form, as numbers. */
module Ipv4Net {
  import opened Bytes

  function Pow2(k: nat): (r: nat)
    ensures r >= 1
  {
    if k == 0 then 1 else 2 * Pow2(k - 1)
  }

  lemma {:induction false} Pow2Add(a: nat, b: nat)
    ensures Pow2(a + b) == Pow2(a) * Pow2(b)
  {
    if a > 0 {
      Pow2Add(a - 1, b);
      assert 2 * Pow2(a - 1) * Pow2(b) == 2 * (Pow2(a - 1) * Pow2(b));
    }
  }

  lemma Pow2Of32()
    ensures Pow2(32) == 0x1_0000_0000
  {
    assert Pow2(8) == 256;
    Pow2Add(8, 8);
    Pow2Add(16, 16);
  }

  /** An address with a prefix length; the address need not be the network's first. */
  datatype Net = Net(addr: u32, prefix: nat)

  type Cidr = n: Net | n.prefix <= 32 witness Net(0, 0)

  function Size(prefix: nat): (s: nat)
    requires prefix <= 32
    ensures s >= 1
  {
    Pow2(32 - prefix)
  }

  /** The largest multiple of `m` that is at most `a`. */
  function RoundDown(a: nat, m: nat): (r: nat)
    requires m > 0
    ensures r <= a < r + m
  {
    DivMod(a, m);
    m * (a / m)
  }

  lemma DivMod(a: nat, m: nat)
    requires m > 0
    ensures a == m * (a / m) + a % m && 0 <= a % m < m && a / m >= 0
  {
  }

  /** The first address of the network that `n` lies in. */
  function Network(n: Cidr): (a: u32) {
    RoundDown(n.addr, Size(n.prefix))
  }

  /** Its last address. */
  function Broadcast(n: Cidr): (a: u32) {
    NetworkFits(n);
    Network(n) + Size(n.prefix) - 1
  }

  lemma MulMonotone(m: nat, a: nat, b: nat)
    requires a <= b
    ensures m * a <= m * b
  {
  }

  /** The `index`-th of `count` blocks of `size` ends inside their total extent. */
  lemma BlockInside(size: nat, count: nat, index: nat)
    requires index < count
    ensures size * index + size <= size * count
  {
    MulMonotone(size, index + 1, count);
  }

  lemma RoundDownMultiple(k: nat, m: nat)
    requires m > 0
    ensures RoundDown(m * k, m) == m * k
  {
    var q := (m * k) / m;
    DivMod(m * k, m);
    if q < k {
      MulMonotone(m, q + 1, k);
    } else {
      MulMonotone(m, k, q);
    }
  }

  lemma RoundDownBelow(a: nat, m: nat, k: nat)
    requires m > 0 && a < m * k
    ensures RoundDown(a, m) + m <= m * k
  {
    var q := a / m;
    DivMod(a, m);
    if q >= k {
      MulMonotone(m, k, q);
    }
    MulMonotone(m, q + 1, k);
  }

  /** A network never reaches past the last IPv4 address. */
  lemma NetworkFits(n: Cidr)
    ensures Network(n) + Size(n.prefix) <= 0x1_0000_0000
  {
    Pow2Add(32 - n.prefix, n.prefix);
    Pow2Of32();
    RoundDownBelow(n.addr, Size(n.prefix), Pow2(n.prefix));
  }

  /** A network whose address is a multiple of its size starts there. */
  lemma AlignedNetwork(k: nat, prefix: nat)
    requires prefix <= 32 && Size(prefix) * k < 0x1_0000_0000
    ensures Network(Net(Size(prefix) * k, prefix)) == Size(prefix) * k
  {
    RoundDownMultiple(k, Size(prefix));
  }

  predicate Contains(n: Cidr, a: u32) {
    Network(n) <= a <= Broadcast(n)
  }

  /** `ipv4_nets_overlap`. */
  predicate Overlap(a: Cidr, b: Cidr) {
    Network(a) <= Broadcast(b) && Network(b) <= Broadcast(a)
  }

  /** Two networks overlap exactly when some address lies in both. */
  lemma OverlapIsShared(a: Cidr, b: Cidr)
    ensures Overlap(a, b) <==> exists x: u32 :: Contains(a, x) && Contains(b, x)
  {
    if Overlap(a, b) {
      var x := if Network(a) < Network(b) then Network(b) else Network(a);
      assert Contains(a, x) && Contains(b, x);
    }
  }
}
