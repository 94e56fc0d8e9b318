/** Peer addresses and the priority order the bully election uses.
    An address is the Python tuple `(host, port)`; tuples compare
    lexicographically, the host string by code points first, then the port. */
module Addresses {

  type Addr = (string, int)

  /** The set of addresses listed in a peer list. */
  function PeerSet(peers: seq<Addr>): set<Addr> {
    set p | p in peers
  }

  /** Python's `a < b` on strings, decided one code point at a time. */
  predicate StrLt(a: string, b: string) {
    if |a| == 0 then |b| > 0
    else if |b| == 0 then false
    else if a[0] != b[0] then a[0] < b[0]
    else StrLt(a[1..], b[1..])
  }

  /** The textbook definition of lexicographic order: after the longest common
      prefix, either `a` has ended and `b` has not, or `a`'s next code point
      is smaller. */
  ghost predicate LexLess(a: string, b: string) {
    exists k :: 0 <= k <= |a| && k <= |b| && a[..k] == b[..k] &&
      ((k == |a| && k < |b|) || (k < |a| && k < |b| && a[k] < b[k]))
  }

  /** Python's tuple comparison `(h1, p1) < (h2, p2)`. */
  predicate AddrLt(a: Addr, b: Addr) {
    StrLt(a.0, b.0) || (a.0 == b.0 && a.1 < b.1)
  }

  /** The recursive comparison agrees with the textbook definition. */
  lemma {:induction false} StrLtIsLexLess(a: string, b: string)
    ensures StrLt(a, b) <==> LexLess(a, b)
    decreases |a|
  {
    if |a| == 0 {
      if |b| > 0 {
        assert a[..0] == b[..0];
      }
    } else if |b| == 0 {
    } else if a[0] != b[0] {
      if a[0] < b[0] {
        assert a[..0] == b[..0];
      }
    } else {
      StrLtIsLexLess(a[1..], b[1..]);
      if LexLess(a[1..], b[1..]) {
        var k :| 0 <= k <= |a[1..]| && k <= |b[1..]| && a[1..][..k] == b[1..][..k] &&
          ((k == |a[1..]| && k < |b[1..]|) || (k < |a[1..]| && k < |b[1..]| && a[1..][k] < b[1..][k]));
        assert a[..k + 1] == [a[0]] + a[1..][..k];
        assert b[..k + 1] == [b[0]] + b[1..][..k];
      }
      if LexLess(a, b) {
        var k :| 0 <= k <= |a| && k <= |b| && a[..k] == b[..k] &&
          ((k == |a| && k < |b|) || (k < |a| && k < |b| && a[k] < b[k]));
        assert a[1..][..k - 1] == a[..k][1..];
        assert b[1..][..k - 1] == b[..k][1..];
        assert LexLess(a[1..], b[1..]);
      }
    }
  }

  lemma {:induction false} StrLtIrreflexive(a: string)
    ensures !StrLt(a, a)
    decreases |a|
  {
    if |a| > 0 {
      StrLtIrreflexive(a[1..]);
    }
  }

  lemma {:induction false} StrLtTransitive(a: string, b: string, c: string)
    requires StrLt(a, b) && StrLt(b, c)
    ensures StrLt(a, c)
    decreases |a|
  {
    if |a| > 0 && a[0] == b[0] && b[0] == c[0] {
      StrLtTransitive(a[1..], b[1..], c[1..]);
    }
  }

  lemma {:induction false} StrLtTotal(a: string, b: string)
    ensures a == b || StrLt(a, b) || StrLt(b, a)
    decreases |a|
  {
    if |a| > 0 && |b| > 0 && a[0] == b[0] {
      StrLtTotal(a[1..], b[1..]);
      if a[1..] == b[1..] {
        assert a == [a[0]] + a[1..] && b == [b[0]] + b[1..];
      }
    }
  }

  /** The election priority is a strict total order on addresses: two
      distinct addresses are always ranked, never both ways. */
  lemma AddrLtStrictTotal(a: Addr, b: Addr, c: Addr)
    ensures !AddrLt(a, a)
    ensures AddrLt(a, b) && AddrLt(b, c) ==> AddrLt(a, c)
    ensures a == b || AddrLt(a, b) || AddrLt(b, a)
    ensures !(AddrLt(a, b) && AddrLt(b, a))
  {
    StrLtIrreflexive(a.0);
    StrLtTotal(a.0, b.0);
    if AddrLt(a, b) && AddrLt(b, c) && StrLt(a.0, b.0) && StrLt(b.0, c.0) {
      StrLtTransitive(a.0, b.0, c.0);
    }
    if StrLt(a.0, b.0) && StrLt(b.0, a.0) {
      StrLtTransitive(a.0, b.0, a.0);
    }
  }

  /** Every non-empty finite set of addresses has a highest-priority member,
      one that outranks every other member. (It is unique, since the order
      is asymmetric by `AddrLtStrictTotal`.) */
  lemma {:induction false} HighestExists(s: set<Addr>)
    requires s != {}
    ensures exists m :: m in s && forall x :: x in s && x != m ==> AddrLt(x, m)
    decreases |s|
  {
    var x :| x in s;
    var rest := s - {x};
    if rest == {} {
      forall y | y in s
        ensures y == x
      {
        assert y !in rest;
      }
    } else {
      HighestExists(rest);
      var m :| m in rest && forall y :: y in rest && y != m ==> AddrLt(y, m);
      AddrLtStrictTotal(x, m, x);
      if AddrLt(m, x) {
        forall y | y in s && y != x
          ensures AddrLt(y, x)
        {
          if y != m {
            AddrLtStrictTotal(y, m, x);
          }
        }
      } else {
        assert forall y :: y in s && y != m ==> AddrLt(y, m);
      }
    }
  }
}
