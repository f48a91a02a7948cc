/** The string primitives the services rely on: .NET's `char.IsWhiteSpace`,
    `string.IsNullOrWhiteSpace`, `string.Trim` and ordinal `string.Contains`. */
module Text {

  /** The characters `char.IsWhiteSpace` accepts: the Unicode space, line and
      paragraph separators, the controls U+0009 to U+000D, U+0085 and U+00A0. */
  predicate IsWhiteSpace(c: char)
  {
    || c == ' '
    || ('\t' <= c <= '\r')
    || c == '\U{0085}'
    || c == '\U{00A0}'
    || c == '\U{1680}'
    || ('\U{2000}' <= c <= '\U{200A}')
    || c == '\U{2028}'
    || c == '\U{2029}'
    || c == '\U{202F}'
    || c == '\U{205F}'
    || c == '\U{3000}'
  }

  /** `string.IsNullOrWhiteSpace`. A null string behaves like the empty one,
      which this predicate also accepts. */
  predicate IsNullOrWhiteSpace(s: string)
  {
    forall i :: 0 <= i < |s| ==> IsWhiteSpace(s[i])
  }

  /** `s` with its leading white space removed. */
  function TrimStart(s: string): (r: string)
    ensures |r| <= |s| && r == s[|s| - |r|..]
    ensures forall i :: 0 <= i < |s| - |r| ==> IsWhiteSpace(s[i])
    ensures r != [] ==> !IsWhiteSpace(r[0])
  {
    if s != [] && IsWhiteSpace(s[0]) then TrimStart(s[1..]) else s
  }

  /** `s` with its trailing white space removed. */
  function TrimEnd(s: string): (r: string)
    ensures |r| <= |s| && r == s[..|r|]
    ensures forall i :: |r| <= i < |s| ==> IsWhiteSpace(s[i])
    ensures r != [] ==> !IsWhiteSpace(r[|r| - 1])
  {
    if s != [] && IsWhiteSpace(s[|s| - 1]) then TrimEnd(s[..|s| - 1]) else s
  }

  /** `string.Trim()`: leading and trailing white space removed. */
  function Trim(s: string): (r: string)
    ensures |r| <= |s|
    ensures r != [] ==> !IsWhiteSpace(r[0]) && !IsWhiteSpace(r[|r| - 1])
  {
    TrimEnd(TrimStart(s))
  }

  /** The text `t` occurs in `s` starting at position `i`. */
  predicate OccursAt(s: string, t: string, i: nat)
  {
    i + |t| <= |s| && s[i..i + |t|] == t
  }

  /** Ordinal, case-sensitive `string.Contains(string)`. */
  predicate Contains(s: string, t: string)
  {
    exists i: nat | i <= |s| :: OccursAt(s, t, i)
  }

  /** .NET's `string.Length`: the number of UTF-16 code units, which is what
      `HasMaxLength` limits. A character above U+FFFF takes a surrogate pair. */
  function Utf16Length(s: string): (n: nat)
    ensures |s| <= n <= 2 * |s|
    ensures n == |s| <==> forall i :: 0 <= i < |s| ==> s[i] as int <= 0xFFFF
  {
    if s == [] then 0
    else (if s[0] as int > 0xFFFF then 2 else 1) + Utf16Length(s[1..])
  }

  /** Trimming leaves something exactly when the string is not blank. */
  lemma TrimNonEmptyIff(s: string)
    ensures Trim(s) != [] <==> !IsNullOrWhiteSpace(s)
  {
    var a := TrimStart(s);
    var r := TrimEnd(a);
    if r == [] {
      if a != [] {
        assert false;
      }
    } else {
      assert !IsWhiteSpace(s[|s| - |a|]);
    }
  }

  /** `Trim(s)` is a piece of `s`: the source only ever removes characters at the ends. */
  lemma TrimIsInfix(s: string)
    ensures Contains(s, Trim(s))
  {
    var a := TrimStart(s);
    var r := TrimEnd(a);
    var i := |s| - |a|;
    assert s[i..i + |r|] == a[..|r|];
    assert OccursAt(s, r, i);
  }

  /** The code units of two strings put together add up. */
  lemma {:induction false} Utf16LengthAppend(a: string, b: string)
    ensures Utf16Length(a + b) == Utf16Length(a) + Utf16Length(b)
  {
    if a == [] {
      assert a + b == b;
    } else {
      assert (a + b)[1..] == a[1..] + b;
      Utf16LengthAppend(a[1..], b);
    }
  }

  /** Trimming never makes a string longer in code units, so a name within a
      column's length is still within it once trimmed. */
  lemma TrimUtf16Length(s: string)
    ensures Utf16Length(Trim(s)) <= Utf16Length(s)
  {
    var r := Trim(s);
    TrimIsInfix(s);
    var i: nat :| i <= |s| && OccursAt(s, r, i);
    assert s == s[..i] + r + s[i + |r|..];
    Utf16LengthAppend(s[..i] + r, s[i + |r|..]);
    Utf16LengthAppend(s[..i], r);
  }

  /** A character outside the Basic Multilingual Plane counts twice. */
  lemma Utf16LengthAstral()
    ensures |"\U{1F600}"| == 1 && Utf16Length("\U{1F600}") == 2
    ensures Utf16Length("Go") == 2
  {
  }

  /** A string with no white space at either end is its own trim. */
  lemma TrimKeeps(s: string)
    requires s != [] && !IsWhiteSpace(s[0]) && !IsWhiteSpace(s[|s| - 1])
    ensures Trim(s) == s
  {
    assert TrimStart(s) == s;
    assert TrimEnd(s) == s;
  }

  /** Leading white space is skipped. */
  lemma TrimStartSkips(c: char, u: string)
    requires IsWhiteSpace(c)
    ensures TrimStart([c] + u) == TrimStart(u)
  {
    assert ([c] + u)[1..] == u;
  }

  /** Trailing white space is skipped. */
  lemma TrimEndSkips(u: string, c: char)
    requires IsWhiteSpace(c)
    ensures TrimEnd(u + [c]) == TrimEnd(u)
  {
    assert (u + [c])[..|u|] == u;
  }

  /** One space on each side of a string that has no white space at its ends is trimmed away. */
  lemma TrimSpaced(s: string)
    requires s != [] && !IsWhiteSpace(s[0]) && !IsWhiteSpace(s[|s| - 1])
    ensures Trim([' '] + s + [' ']) == s
  {
    var u := s + [' '];
    assert [' '] + s + [' '] == [' '] + u;
    TrimStartSkips(' ', u);
    assert u[0] == s[0];
    assert TrimStart(u) == u;
    TrimEndSkips(s, ' ');
    assert TrimEnd(s) == s;
  }

  /** A trimmed string is its own trim, so trimming twice changes nothing. */
  lemma TrimIdempotent(s: string)
    ensures Trim(Trim(s)) == Trim(s)
  {
    if Trim(s) != [] {
      TrimKeeps(Trim(s));
    }
  }

  /** Every string contains the empty string, which is why callers reject a blank term. */
  lemma ContainsEmpty(s: string)
    ensures Contains(s, [])
  {
    assert OccursAt(s, [], 0);
  }

  /** Matching is case-sensitive: "Go" occurs in "Go Guide" but not in "golang tips". */
  lemma ContainsIsCaseSensitive()
    ensures Contains("Go Guide", "Go")
    ensures !Contains("golang tips", "Go")
  {
    assert OccursAt("Go Guide", "Go", 0);
    forall i: nat | i <= |"golang tips"| ensures !OccursAt("golang tips", "Go", i) {
      assert i + 2 <= 11 ==> "golang tips"[i..i + 2] != "Go" by {
        if i + 2 <= 11 { assert "golang tips"[i..i + 2][0] == "golang tips"[i]; }
      }
    }
  }
}
