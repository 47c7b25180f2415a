/** Option and Result, and the few facts about sequences every component uses. */
module Common {
  datatype Option<+T> = None | Some(value: T) {
    function GetOr(default: T): T {
      if Some? then value else default
    }
  }

  datatype Result<+T, +E> = Ok(value: T) | Err(error: E)

  /** The elements of a sequence, as a set. */
  function Elems<T>(s: seq<T>): set<T> {
    set x | x in s
  }

  lemma ElemsAppend<T>(a: seq<T>, b: seq<T>)
    ensures Elems(a + b) == Elems(a) + Elems(b)
  {
    assert forall x :: x in a + b <==> x in a || x in b;
  }

  ghost predicate NoDuplicates<T>(s: seq<T>) {
    forall i, j :: 0 <= i < j < |s| ==> s[i] != s[j]
  }

  function Reversed<T>(s: seq<T>): (r: seq<T>)
    ensures |r| == |s|
    ensures forall i :: 0 <= i < |s| ==> r[i] == s[|s| - 1 - i]
  {
    seq(|s|, i requires 0 <= i < |s| => s[|s| - 1 - i])
  }

  /** The decimal digits of n. */
  function Decimal(n: nat): (s: string)
    ensures s != "" && forall i :: 0 <= i < |s| ==> '0' <= s[i] <= '9'
  {
    if n < 10 then ["0123456789"[n]] else Decimal(n / 10) + ["0123456789"[n % 10]]
  }

  /** The number that decimal digits denote. */
  function ReadDecimal(s: string): nat {
    if s == "" then 0
    else
      var digit := s[|s| - 1];
      10 * ReadDecimal(s[..|s| - 1]) + if '0' <= digit <= '9' then digit as nat - '0' as nat else 0
  }

  lemma DigitReadsBack(d: nat)
    requires d < 10
    ensures '0' <= "0123456789"[d] <= '9' && "0123456789"[d] as nat - '0' as nat == d
  {
  }

  lemma {:induction false} DecimalReadsBack(n: nat)
    ensures ReadDecimal(Decimal(n)) == n
  {
    DigitReadsBack(n % 10);
    if n < 10 {
      assert n % 10 == n && Decimal(n)[..0] == "";
    } else {
      DecimalReadsBack(n / 10);
      assert Decimal(n)[..|Decimal(n)| - 1] == Decimal(n / 10);
    }
  }

  /** Unicode White_Space. */
  predicate IsWhitespace(c: char) {
    || '\U{0009}' <= c <= '\U{000D}' || c == ' ' || c == '\U{0085}' || c == '\U{00A0}' || c == '\U{1680}'
    || '\U{2000}' <= c <= '\U{200A}' || c == '\U{2028}' || c == '\U{2029}' || c == '\U{202F}' || c == '\U{205F}'
    || c == '\U{3000}'
  }

  // ----- Sorted names -----

  /** The order of strings, character by character. */
  predicate AtMost(a: string, b: string) {
    a == "" || (b != "" && (a[0] < b[0] || (a[0] == b[0] && AtMost(a[1..], b[1..]))))
  }

  lemma {:induction false} AtMostIsTotal(a: string, b: string)
    ensures AtMost(a, b) || AtMost(b, a)
  {
    if a != "" && b != "" {
      AtMostIsTotal(a[1..], b[1..]);
    }
  }

  lemma {:induction false} AtMostIsTransitive(a: string, b: string, c: string)
    requires AtMost(a, b) && AtMost(b, c)
    ensures AtMost(a, c)
  {
    if a != "" && b != "" && c != "" {
      if a[0] == b[0] == c[0] {
        AtMostIsTransitive(a[1..], b[1..], c[1..]);
      }
    }
  }

  /** A string comes before its extensions; else the first different character decides. */
  lemma {:induction false} AtMostExactly(a: string, b: string)
    ensures AtMost(a, b) <==> a <= b || exists k :: 0 <= k < |a| && k < |b| && a[..k] == b[..k] && a[k] < b[k]
  {
    if a == "" || b == "" {
    } else {
      AtMostExactly(a[1..], b[1..]);
      if AtMost(a, b) && a[0] == b[0] {
        if !(a[1..] <= b[1..]) {
          var k :| 0 <= k < |a| - 1 && k < |b| - 1 && a[1..][..k] == b[1..][..k] && a[1..][k] < b[1..][k];
          assert a[..k + 1] == [a[0]] + a[1..][..k] && b[..k + 1] == [b[0]] + b[1..][..k] && a[k + 1] < b[k + 1];
        }
      } else if AtMost(a, b) {
        assert a[..0] == b[..0];
      }
      if k :| 0 < k < |a| && k < |b| && a[..k] == b[..k] && a[k] < b[k] {
        assert a[0] == a[..k][0] == b[..k][0] == b[0];
        assert a[1..][..k - 1] == a[..k][1..] == b[..k][1..] == b[1..][..k - 1] && a[1..][k - 1] < b[1..][k - 1];
      }
    }
  }

  ghost predicate IsSorted(names: seq<string>) {
    forall i, j :: 0 <= i < j < |names| ==> AtMost(names[i], names[j])
  }

  lemma {:induction false} LeastName(names: set<string>) returns (least: string)
    requires names != {}
    ensures least in names && forall n :: n in names ==> AtMost(least, n)
    decreases |names|
  {
    var n :| n in names;
    var rest := names - {n};
    assert forall k :: k in names ==> k == n || k in rest;
    AtMostIsTotal(n, n);
    if rest == {} {
      least := n;
    } else {
      var m := LeastName(rest);
      AtMostIsTotal(n, m);
      least := if AtMost(n, m) then n else m;
      forall k | k in names
        ensures AtMost(least, k)
      {
        if k != n && least == n {
          AtMostIsTransitive(n, m, k);
        }
      }
    }
  }

  /** The names, each once and in order. */
  method Sort(names: set<string>) returns (r: seq<string>)
    ensures Elems(r) == names && IsSorted(r) && NoDuplicates(r)
  {
    r := [];
    var todo := names;
    while todo != {}
      invariant todo <= names && Elems(r) == names - todo
      invariant IsSorted(r) && NoDuplicates(r)
      invariant forall a, b :: a in r && b in todo ==> AtMost(a, b)
      decreases todo
    {
      ghost var least := LeastName(todo);
      var n :| n in todo && forall m :: m in todo ==> AtMost(n, m);
      todo := todo - {n};
      assert n !in Elems(r);
      ElemsAppend(r, [n]);
      r := r + [n];
    }
  }
}
