/** Small shared vocabulary: optional values, fault-carrying results, and the
    sequence helpers (LINQ's `Except` and `string.Join`) the analyzers use. */
module Common {

  /** An optional value; stands for a C# reference that may be null. */
  datatype Option<+T> = None | Some(value: T)

  /** The .NET exceptions the modelled code can raise. */
  datatype Fault =
    | UnknownStatement   // NotImplementedException thrown for an unsupported statement kind
    | NullReference      // NullReferenceException from dereferencing a missing syntax node
    | DuplicateKey       // ArgumentException from a dictionary given one key with two values

  /** The outcome of a computation that may raise one of the faults above. */
  datatype Result<+T> = Ok(value: T) | Failed(fault: Fault)

  /** LINQ `xs.Except(ys)`: the distinct elements of `xs` that are not in `ys`,
      in the order of their first occurrence. */
  function ExceptDistinct(xs: seq<string>, ys: set<string>): (r: seq<string>)
    ensures forall x :: x in r <==> x in xs && x !in ys
    ensures NoDuplicates(r)
    ensures IsSubsequence(r, xs)
    decreases |xs|
  {
    if |xs| == 0 then []
    else
      var last := xs[|xs| - 1];
      var prefix := ExceptDistinct(xs[..|xs| - 1], ys);
      SubsequenceExtend(prefix, xs[..|xs| - 1], last);
      assert xs[..|xs| - 1] + [last] == xs;
      if last in ys || last in prefix then prefix else prefix + [last]
  }

  /** One more name at the end is kept unless it is removed or already kept. */
  lemma ExceptDistinctSnoc(xs: seq<string>, x: string, ys: set<string>)
    ensures ExceptDistinct(xs + [x], ys) ==
              if x in ys || x in ExceptDistinct(xs, ys) then ExceptDistinct(xs, ys) else ExceptDistinct(xs, ys) + [x]
  {
    assert (xs + [x])[..|xs|] == xs;
  }

  lemma ExceptDistinctOne(a: string, ys: set<string>)
    ensures ExceptDistinct([a], ys) == if a in ys then [] else [a]
  {
    ExceptDistinctSnoc([], a, ys);
    assert [] + [a] == [a];
  }

  lemma ExceptDistinctTwo(a: string, b: string, ys: set<string>)
    requires a != b
    ensures ExceptDistinct([a, b], ys) == (if a in ys then [] else [a]) + (if b in ys then [] else [b])
  {
    ExceptDistinctOne(a, ys);
    ExceptDistinctSnoc([a], b, ys);
    assert [a] + [b] == [a, b];
  }

  /** No element occurs twice. */
  predicate NoDuplicates<T(==)>(s: seq<T>)
  {
    forall i, j :: 0 <= i < j < |s| ==> s[i] != s[j]
  }

  /** `a` can be obtained from `b` by deleting elements (order is kept). */
  ghost predicate IsSubsequence<T>(a: seq<T>, b: seq<T>)
    decreases |b|
  {
    if |a| == 0 then true
    else if |b| == 0 then false
    else if a[|a| - 1] == b[|b| - 1] then IsSubsequence(a[..|a| - 1], b[..|b| - 1])
    else IsSubsequence(a, b[..|b| - 1])
  }

  /** Dropping the last element of a subsequence keeps it a subsequence. */
  lemma {:induction false} SubsequenceDropLast<T>(a: seq<T>, b: seq<T>)
    requires |a| > 0 && IsSubsequence(a, b)
    ensures IsSubsequence(a[..|a| - 1], b)
    decreases |b|
  {
    var a' := a[..|a| - 1];
    var b' := b[..|b| - 1];
    if |a'| > 0 {
      if a[|a| - 1] == b[|b| - 1] {
        // IsSubsequence(a', b') holds by definition
        if a'[|a'| - 1] == b[|b| - 1] {
          SubsequenceDropLast(a', b');
        }
      } else {
        SubsequenceDropLast(a, b');
        if a'[|a'| - 1] == b[|b| - 1] {
          SubsequenceDropLast(a', b');
        }
      }
    }
  }

  /** Appending to the longer sequence, or to both, keeps a subsequence. */
  lemma {:induction false} SubsequenceExtend<T>(a: seq<T>, b: seq<T>, x: T)
    requires IsSubsequence(a, b)
    ensures IsSubsequence(a, b + [x])
    ensures IsSubsequence(a + [x], b + [x])
  {
    assert (a + [x])[..|a|] == a;
    assert (b + [x])[..|b|] == b;
    if |a| > 0 && a[|a| - 1] == x {
      SubsequenceDropLast(a, b);
    }
  }

  /** Being a subsequence is transitive. */
  lemma {:induction false} SubsequenceTrans<T>(a: seq<T>, b: seq<T>, c: seq<T>)
    requires IsSubsequence(a, b) && IsSubsequence(b, c)
    ensures IsSubsequence(a, c)
    decreases |c|
  {
    if |a| == 0 || |b| == 0 {
    } else {
      var c' := c[..|c| - 1];
      assert c' + [c[|c| - 1]] == c;
      if b[|b| - 1] == c[|c| - 1] {
        var b' := b[..|b| - 1];
        if a[|a| - 1] == b[|b| - 1] {
          SubsequenceTrans(a[..|a| - 1], b', c');
        } else {
          SubsequenceTrans(a, b', c');
          SubsequenceExtend(a, c', c[|c| - 1]);
        }
      } else {
        SubsequenceTrans(a, b, c');
        SubsequenceExtend(a, c', c[|c| - 1]);
      }
    }
  }

  /** `string.Join(", ", names)`. */
  function JoinComma(names: seq<string>): (r: string)
    ensures |names| == 0 ==> r == ""
    ensures |names| == 1 ==> r == names[0]
  {
    if |names| == 0 then ""
    else if |names| == 1 then names[0]
    else JoinComma(names[..|names| - 1]) + ", " + names[|names| - 1]
  }

  predicate IsDigits(s: string)
  {
    forall i :: 0 <= i < |s| ==> '0' <= s[i] <= '9'
  }

  /** The number a string of decimal digits denotes. */
  function DecimalValue(s: string): nat
    requires IsDigits(s)
  {
    if |s| == 0 then 0
    else DecimalValue(s[..|s| - 1]) * 10 + (s[|s| - 1] as int - '0' as int)
  }

  /** The decimal text of a natural number, as `$"{n}"` prints it: digits
      without a leading zero that read back as `n`. */
  function NatToDecimal(n: nat): (r: string)
    ensures |r| > 0 && IsDigits(r)
    ensures DecimalValue(r) == n
    ensures |r| > 1 ==> r[0] != '0'
  {
    var digit := [('0' as int + n % 10) as char];
    if n < 10 then digit
    else
      var prefix := NatToDecimal(n / 10);
      assert (prefix + digit)[..|prefix|] == prefix;
      prefix + digit
  }

  /** Different numbers print differently. */
  lemma NatToDecimalInjective(a: nat, b: nat)
    requires NatToDecimal(a) == NatToDecimal(b)
    ensures a == b
  {
  }
}
