/**
 * The bully ordering of servers (`isBiggerBully`, src/Server/IdServer.java):
 * a replica outranks this server when its hostname compares greater under
 * Java's `String.compareTo`.
 */
module Bully {

  /**
   * `String.compareTo`: the difference of the first pair of characters that
   * differ, or else the difference of the lengths.
   */
  function CompareTo(a: string, b: string): int
    decreases |a|
  {
    if a == [] || b == [] then |a| - |b|
    else if a[0] != b[0] then a[0] as int - b[0] as int
    else CompareTo(a[1..], b[1..])
  }

  /** `isBiggerBully(other)` asked on the server whose address is `me`. */
  predicate IsBiggerBully(other: string, me: string)
  {
    CompareTo(other, me) > 0
  }

  lemma {:induction false} CompareToIsAntisymmetric(a: string, b: string)
    ensures CompareTo(a, b) == -CompareTo(b, a)
    decreases |a|
  {
    if a != [] && b != [] && a[0] == b[0] {
      CompareToIsAntisymmetric(a[1..], b[1..]);
    }
  }

  lemma {:induction false} CompareToIsZeroIffEqual(a: string, b: string)
    ensures CompareTo(a, b) == 0 <==> a == b
    decreases |a|
  {
    if a != [] && b != [] && a[0] == b[0] {
      CompareToIsZeroIffEqual(a[1..], b[1..]);
      assert a == [a[0]] + a[1..] && b == [b[0]] + b[1..];
    }
  }

  lemma {:induction false} CompareToIsTransitive(a: string, b: string, c: string)
    ensures CompareTo(a, b) > 0 && CompareTo(b, c) > 0 ==> CompareTo(a, c) > 0
    decreases |a|
  {
    if a != [] && b != [] && c != [] && a[0] == b[0] && b[0] == c[0] {
      CompareToIsTransitive(a[1..], b[1..], c[1..]);
    }
  }

  /**
   * Between two different servers exactly one is the bigger bully, and no
   * server outranks itself.
   */
  lemma BiggerBullyIsStrictAndTotal(a: string, b: string)
    ensures !IsBiggerBully(a, a)
    ensures a != b ==> (IsBiggerBully(a, b) <==> !IsBiggerBully(b, a))
    ensures IsBiggerBully(a, b) ==> a != b
  {
    CompareToIsZeroIffEqual(a, a);
    CompareToIsZeroIffEqual(a, b);
    CompareToIsAntisymmetric(a, b);
  }

  /** A server that no other server of `hosts` outranks. */
  predicate Unbeaten(hosts: set<string>, w: string)
  {
    forall h :: h in hosts ==> !IsBiggerBully(h, w)
  }

  /** Every non-empty group of servers has a server no other outranks. */
  lemma {:induction false} UnbeatenExists(hosts: set<string>)
    requires hosts != {}
    ensures exists w :: w in hosts && Unbeaten(hosts, w)
    decreases |hosts|
  {
    var x :| x in hosts;
    if hosts - {x} == {} {
      assert hosts == {x};
      BiggerBullyIsStrictAndTotal(x, x);
      assert Unbeaten(hosts, x);
    } else {
      UnbeatenExists(hosts - {x});
      var w :| w in hosts - {x} && Unbeaten(hosts - {x}, w);
      if IsBiggerBully(x, w) {
        forall h | h in hosts ensures !IsBiggerBully(h, x) {
          if h == x {
            BiggerBullyIsStrictAndTotal(x, x);
          } else {
            assert h in hosts - {x};
            CompareToIsTransitive(h, x, w);
          }
        }
        assert Unbeaten(hosts, x);
      } else {
        assert Unbeaten(hosts, w);
      }
    }
  }

  /** The winner of a bully election among distinct hostnames is unique. */
  lemma UnbeatenIsUnique(hosts: set<string>, a: string, b: string)
    requires a in hosts && b in hosts && Unbeaten(hosts, a) && Unbeaten(hosts, b)
    ensures a == b
  {
    BiggerBullyIsStrictAndTotal(a, b);
  }
}
