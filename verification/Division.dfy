/** Facts about division rounded down, and its remainder. */
module Division {
  lemma Multiple(k: int, r: int)
    requires k > 0
    ensures (r >= 1 ==> k * r >= k) && (r <= -1 ==> k * r <= -k)
  {
    assert k * r == k + k * (r - 1) && k * r == -k + k * (r + 1);
  }

  lemma Floor(a: int, k: int, q: int)
    requires k > 0 && k * q <= a < k * q + k
    ensures a / k == q
  {
    var r := a / k - q;
    assert a == k * (a / k) + a % k;
    assert k * r == k * (a / k) - k * q;
    Multiple(k, r);
  }

  lemma Shift(a: int, k: int, e: int)
    requires k > 0
    ensures (a + k * e) / k == a / k + e && (a + k * e) % k == a % k
  {
    assert a == k * (a / k) + a % k;
    assert k * (a / k + e) == k * (a / k) + k * e;
    Floor(a + k * e, k, a / k + e);
  }

  lemma Down(a: int, k: int)
    requires k > 1
    ensures a / k == (a - 1) / k + (if a % k == 0 then 1 else 0)
  {
    assert a == k * (a / k) + a % k;
    if a % k == 0 {
      assert k * (a / k - 1) == k * (a / k) - k;
      Floor(a - 1, k, a / k - 1);
    } else {
      Floor(a - 1, k, a / k);
    }
  }
}
