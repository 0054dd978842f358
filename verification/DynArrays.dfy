/** `dynarray_add`: an array that doubles at every power of two. */
module DynArrays {
  /** Bitwise and of two non-negative numbers. */
  function BitAnd(a: nat, b: nat): nat {
    if a == 0 || b == 0 then 0 else 2 * BitAnd(a / 2, b / 2) + (a % 2) * (b % 2)
  }

  predicate PowerOfTwo(n: nat) {
    n == 1 || (n > 0 && n % 2 == 0 && PowerOfTwo(n / 2))
  }

  lemma {:induction false} AndSelf(n: nat)
    ensures BitAnd(n, n) == n
  {
    if n > 0 {
      AndSelf(n / 2);
      assert BitAnd(n, n) == 2 * (n / 2) + (n % 2) * (n % 2);
      if n % 2 == 1 {
        assert n == 2 * (n / 2) + 1;
      } else {
        assert n == 2 * (n / 2);
      }
    }
  }

  /** The test `(nb & (nb - 1)) == 0` picks out zero and the powers of two. */
  lemma {:induction false} TestIsPower(n: nat)
    requires n > 0
    ensures BitAnd(n, n - 1) == 0 <==> PowerOfTwo(n)
  {
    if n % 2 == 1 {
      AndSelf(n / 2);
      assert (n - 1) / 2 == n / 2;
    } else {
      TestIsPower(n / 2);
      assert (n - 1) / 2 == n / 2 - 1;
    }
  }

  lemma {:induction false} NextPower(n: nat, p: nat)
    requires PowerOfTwo(n) && PowerOfTwo(p) && n < p
    ensures 2 * n <= p
  {
    if n > 1 && p > 1 {
      NextPower(n / 2, p / 2);
    }
  }

  class DynArray<T(0)> {
    var tab: array<T>
    var nb: nat

    /** The room is the smallest power of two that holds the elements. */
    ghost predicate Valid()
      reads this
    {
      nb <= tab.Length && (nb > 0 ==> PowerOfTwo(tab.Length) && tab.Length < 2 * nb)
    }

    ghost function Elements(): seq<T>
      reads this, tab
      requires Valid()
    {
      tab[..nb]
    }

    constructor ()
      ensures Valid() && fresh(tab) && Elements() == []
    {
      tab := new T[0];
      nb := 0;
    }

    /** The store at `nb` never lies past the room, and earlier elements stay. */
    method Add(data: T)
      requires Valid()
      modifies this, tab
      ensures Valid() && Elements() == old(Elements()) + [data]
      ensures tab == old(tab) || fresh(tab)
    {
      if nb > 0 {
        TestIsPower(nb);
        if !PowerOfTwo(nb) {
          assert nb != tab.Length;
        } else if nb < tab.Length {
          NextPower(nb, tab.Length);
        }
      }
      if nb == 0 || BitAnd(nb, nb - 1) == 0 {
        var room := if nb == 0 then 1 else nb * 2;
        var bigger := new T[room];
        var i := 0;
        while i < nb
          invariant 0 <= i <= nb && nb == old(nb) && tab == old(tab) && tab[..] == old(tab[..])
          invariant bigger[..i] == tab[..i]
        {
          bigger[i] := tab[i];
          i := i + 1;
        }
        tab := bigger;
      }
      tab[nb] := data;
      nb := nb + 1;
    }
  }
}
