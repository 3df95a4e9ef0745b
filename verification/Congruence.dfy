/** Congruence modulo a positive number, as the existence of a cofactor. */
module Congruence {
  import opened Bits

  ghost predicate Cong(a: int, b: int, n: nat)
    requires n > 0
  {
    (a - b) % n == 0
  }

  lemma CongByCofactor(a: int, b: int, k: int, n: nat)
    requires n > 0 && a - b == n * k
    ensures Cong(a, b, n)
  {
    ModUnique(a - b, n, k, 0);
  }

  lemma CongCofactor(a: int, b: int, n: nat) returns (k: int)
    requires n > 0 && Cong(a, b, n)
    ensures a - b == n * k
  {
    k := (a - b) / n;
  }

  lemma CongSym(a: int, b: int, n: nat)
    requires n > 0 && Cong(a, b, n)
    ensures Cong(b, a, n)
  {
    hide Cong;
    var k := CongCofactor(a, b, n);
    MulAdd(n, -k, k);
    CongByCofactor(b, a, -k, n);
  }

  lemma MulAdd(n: int, k: int, l: int)
    ensures n * (k + l) == n * k + n * l && n * (k - l) == n * k - n * l
  {
  }

  lemma CongTrans(a: int, b: int, c: int, n: nat)
    requires n > 0 && Cong(a, b, n) && Cong(b, c, n)
    ensures Cong(a, c, n)
  {
    hide Cong;
    var k := CongCofactor(a, b, n);
    var l := CongCofactor(b, c, n);
    MulAdd(n, k, l);
    CongByCofactor(a, c, k + l, n);
  }

  lemma CongAdd(a: int, b: int, c: int, d: int, n: nat)
    requires n > 0 && Cong(a, b, n) && Cong(c, d, n)
    ensures Cong(a + c, b + d, n) && Cong(a - c, b - d, n)
  {
    hide Cong;
    var k := CongCofactor(a, b, n);
    var l := CongCofactor(c, d, n);
    MulAdd(n, k, l);
    CongByCofactor(a + c, b + d, k + l, n);
    CongByCofactor(a - c, b - d, k - l, n);
  }

  lemma CongAddMul(a: int, b: int, x: int, r: int, n: nat)
    requires n > 0 && Cong(a, b, n)
    ensures Cong((a + x) * r, (b + x) * r, n)
  {
    hide Cong;
    var k := CongCofactor(a, b, n);
    assert (a + x) * r - (b + x) * r == (a - b) * r == n * k * r == n * (k * r);
    CongByCofactor((a + x) * r, (b + x) * r, k * r, n);
  }

  lemma CongMod(a: int, n: nat)
    requires n > 0
    ensures Cong(a, a % n, n) && 0 <= a % n < n
  {
    hide Cong;
    CongByCofactor(a, a % n, a / n, n);
  }

  lemma CongUnique(a: int, b: int, n: nat)
    requires n > 0 && Cong(a, b, n) && 0 <= a < n && 0 <= b < n
    ensures a == b
  {
    hide Cong;
    var k := CongCofactor(a, b, n);
    SmallMultiple(k, n);
  }
}
