/**
 * Text helpers: ASCII case mapping (JavaScript `toLowerCase`/`toUpperCase`
 * and PHP `strtoupper` restricted to ASCII), substring search
 * (`String.prototype.includes`) and PHP's notion of an "empty" string.
 */
module Text {

  predicate IsAsciiUpper(c: char) { 'A' <= c <= 'Z' }
  predicate IsAsciiLower(c: char) { 'a' <= c <= 'z' }

  function LowerChar(c: char): (r: char)
    ensures IsAsciiUpper(c) ==> IsAsciiLower(r)
    ensures !IsAsciiUpper(c) ==> r == c
    ensures !IsAsciiUpper(r)
  {
    if IsAsciiUpper(c) then (c as int + 32) as char else c
  }

  function UpperChar(c: char): (r: char)
    ensures IsAsciiLower(c) ==> IsAsciiUpper(r)
    ensures !IsAsciiLower(c) ==> r == c
    ensures !IsAsciiLower(r)
  {
    if IsAsciiLower(c) then (c as int - 32) as char else c
  }

  /** `s.toLowerCase()` on ASCII text. */
  function Lower(s: string): (r: string)
    ensures |r| == |s|
    ensures forall i :: 0 <= i < |s| ==> r[i] == LowerChar(s[i])
  {
    seq(|s|, i requires 0 <= i < |s| => LowerChar(s[i]))
  }

  /** `strtoupper($s)` / `s.toUpperCase()` on ASCII text. */
  function Upper(s: string): (r: string)
    ensures |r| == |s|
    ensures forall i :: 0 <= i < |s| ==> r[i] == UpperChar(s[i])
  {
    seq(|s|, i requires 0 <= i < |s| => UpperChar(s[i]))
  }

  /** No character of `s` is a lower-case ASCII letter. */
  predicate NoLowerCase(s: string) {
    forall i :: 0 <= i < |s| ==> !IsAsciiLower(s[i])
  }

  /** The first `n` characters of `s`, or all of `s` when it is shorter
      (`s.substring(0, n)`, `substr($s, 0, $n)`). */
  function Prefix(s: string, n: nat): (r: string)
    ensures |r| <= n && |r| <= |s|
    ensures r <= s
    ensures |s| >= n ==> |r| == n
  {
    if |s| <= n then s else s[..n]
  }

  /** `q` occurs in `s` starting at index `i`. */
  predicate OccursAt(s: string, q: string, i: nat) {
    i + |q| <= |s| && s[i..i + |q|] == q
  }

  /** `s.includes(q)`: a left-to-right scan for an occurrence of `q`. */
  function Contains(s: string, q: string): (r: bool)
    ensures r <==> exists i: nat :: OccursAt(s, q, i)
    decreases |s|
  {
    if q <= s then
      assert OccursAt(s, q, 0);
      true
    else if |s| == 0 then
      false
    else
      var rest := Contains(s[1..], q);
      if rest then
        var j: nat :| OccursAt(s[1..], q, j);
        assert s[j + 1..j + 1 + |q|] == s[1..][j..j + |q|];
        assert OccursAt(s, q, j + 1);
        true
      else
        assert forall i: nat :: OccursAt(s, q, i) ==> i > 0 && OccursAt(s[1..], q, i - 1) by {
          forall i: nat | OccursAt(s, q, i)
            ensures i > 0 && OccursAt(s[1..], q, i - 1)
          {
            assert s[1..][i - 1..i - 1 + |q|] == s[i..i + |q|];
          }
        }
        false
  }

  /** PHP `empty($s)` for a string: the empty string and "0" are empty. */
  predicate PhpEmpty(s: string) {
    s == "" || s == "0"
  }

  /** Upper-casing and lower-casing agree on which texts spell a given code:
      `x` upper-cases to `u` exactly when it lower-cases to `Lower(u)`, for any
      `u` without lower-case letters. */
  lemma {:induction false} UpperLowerAgree(x: string, u: string)
    requires NoLowerCase(u)
    ensures Upper(x) == u <==> Lower(x) == Lower(u)
  {
    if Upper(x) == u {
      forall i | 0 <= i < |x|
        ensures Lower(x)[i] == Lower(u)[i]
      {
        assert UpperChar(x[i]) == u[i];
      }
    }
    if Lower(x) == Lower(u) {
      forall i | 0 <= i < |x|
        ensures Upper(x)[i] == u[i]
      {
        assert LowerChar(x[i]) == LowerChar(u[i]);
        assert !IsAsciiLower(u[i]);
      }
    }
  }

  /** Every text contains the empty text. */
  lemma ContainsEmpty(s: string)
    ensures Contains(s, "")
  {
    assert OccursAt(s, "", 0);
  }

  /** Containment is transitive: an occurrence inside an occurrence. */
  lemma ContainsTransitive(a: string, b: string, c: string)
    requires Contains(a, b) && Contains(b, c)
    ensures Contains(a, c)
  {
    var i: nat :| OccursAt(a, b, i);
    var j: nat :| OccursAt(b, c, j);
    var x := a[i + j..i + j + |c|];
    var y := b[j..j + |c|];
    forall k | 0 <= k < |c| ensures x[k] == y[k] {
      assert a[i..i + |b|][j + k] == b[j + k];
    }
    assert x == y;
    assert OccursAt(a, c, i + j);
  }

  /** Lower-casing both texts keeps an occurrence. */
  lemma ContainsLower(s: string, q: string)
    requires Contains(s, q)
    ensures Contains(Lower(s), Lower(q))
  {
    var i: nat :| OccursAt(s, q, i);
    assert Lower(s)[i..i + |q|] == Lower(q) by {
      forall k | 0 <= k < |q| ensures Lower(s)[i..i + |q|][k] == Lower(q)[k] {
        assert s[i..i + |q|][k] == q[k];
      }
    }
    assert OccursAt(Lower(s), Lower(q), i);
  }

  /** Lower-casing forgets an earlier upper-casing. */
  lemma LowerOfUpper(q: string)
    ensures Lower(Upper(q)) == Lower(q)
  {
    assert forall k :: 0 <= k < |q| ==> LowerChar(UpperChar(q[k])) == LowerChar(q[k]);
  }
}
