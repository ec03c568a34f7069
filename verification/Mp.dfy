// The big-integer operations that can fail, as exact arithmetic.
module Mp {
  import opened Results
  import opened Numbers

  function InvmodFrom(a: int, m: int, i: nat): (r: Option<int>)
    requires m > 1 && i <= m
    ensures r.Some? ==> i <= r.value < m && Cong(a * r.value, 1, m)
    ensures r.None? ==> forall x :: i <= x < m ==> !Cong(a * x, 1, m)
    decreases m - i
  {
    if i == m then None
    else if (a * i - 1) % m == 0 then Some(i)
    else InvmodFrom(a, m, i + 1)
  }

  // mp_invmod: 1/a mod m in 0..m-1, or a failure when there is none.
  function Invmod(a: int, m: int): (r: Option<int>)
    requires m > 1
    ensures r.Some? ==> 0 <= r.value < m && Cong(a * r.value, 1, m)
    ensures r.None? ==> forall x :: 0 <= x < m ==> !Cong(a * x, 1, m)
  {
    InvmodFrom(a, m, 0)
  }

  // Modulo a prime only the multiples of it have no inverse.
  lemma InvmodPrime(a: int, p: int)
    requires Prime(p)
    ensures Invmod(a, p).Some? <==> a % p != 0
  {
    if a % p != 0 {
      var x := InverseExists(a, p);
    } else if Invmod(a, p).Some? {
      var x := Invmod(a, p).value;
      CongSelf(x, p);
      CongMul(a, 0, x, x, p);
      CongSymm(a * x, 1, p);
      CongTrans(1, a * x, 0 * x, p);
      SmallResidue(1, p);
    }
  }
}
