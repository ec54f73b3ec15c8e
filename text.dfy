/** The string helpers the superhero database relies on: ASCII case
    conversion (`::toupper` / `::tolower` in the "C" locale), the ordering
    `std::string` uses for `<` and `>`, and `std::string::find`. */
module AsciiText {

  datatype Option<T> = None | Some(value: T)

  /** `::toupper`: only 'a'..'z' change. */
  function ToUpperChar(c: char): char
  {
    if 'a' <= c <= 'z' then (c as int - 32) as char else c
  }

  /** `::tolower`: only 'A'..'Z' change. */
  function ToLowerChar(c: char): char
  {
    if 'A' <= c <= 'Z' then (c as int + 32) as char else c
  }

  /** No character of `s` is a lower-case ASCII letter. */
  predicate NoLower(s: string)
  {
    forall i :: 0 <= i < |s| ==> !('a' <= s[i] <= 'z')
  }

  /** No character of `s` is an upper-case ASCII letter. */
  predicate NoUpper(s: string)
  {
    forall i :: 0 <= i < |s| ==> !('A' <= s[i] <= 'Z')
  }

  /** `toUppercase`: a copy of `s` with every character mapped on its own. */
  function ToUppercase(s: string): (r: string)
    ensures |r| == |s|
    ensures forall i :: 0 <= i < |s| ==> r[i] == ToUpperChar(s[i])
    ensures NoLower(r)
  {
    if s == [] then [] else [ToUpperChar(s[0])] + ToUppercase(s[1..])
  }

  /** `toLowercase`: a copy of `s` with every character mapped on its own. */
  function ToLowercase(s: string): (r: string)
    ensures |r| == |s|
    ensures forall i :: 0 <= i < |s| ==> r[i] == ToLowerChar(s[i])
    ensures NoUpper(r)
  {
    if s == [] then [] else [ToLowerChar(s[0])] + ToLowercase(s[1..])
  }

  /** Each conversion forgets which case its character had. */
  lemma CharCaseAbsorbs(c: char)
    ensures ToLowerChar(ToUpperChar(c)) == ToLowerChar(c) && ToLowerChar(ToLowerChar(c)) == ToLowerChar(c)
    ensures ToUpperChar(ToLowerChar(c)) == ToUpperChar(c) && ToUpperChar(ToUpperChar(c)) == ToUpperChar(c)
  {
  }

  /** Lower-casing forgets which case the input had. */
  lemma LowercaseAbsorbs(s: string)
    ensures ToLowercase(ToUppercase(s)) == ToLowercase(s)
    ensures ToLowercase(ToLowercase(s)) == ToLowercase(s)
  {
    var l := ToLowercase(s);
    var lu, ll := ToLowercase(ToUppercase(s)), ToLowercase(l);
    forall i | 0 <= i < |s|
      ensures lu[i] == l[i] && ll[i] == l[i]
    {
      CharCaseAbsorbs(s[i]);
    }
    assert |lu| == |l| && |ll| == |l|;
  }

  /** Upper-casing forgets which case the input had. */
  lemma UppercaseAbsorbs(s: string)
    ensures ToUppercase(ToLowercase(s)) == ToUppercase(s)
    ensures ToUppercase(ToUppercase(s)) == ToUppercase(s)
  {
    var u := ToUppercase(s);
    var ul, uu := ToUppercase(ToLowercase(s)), ToUppercase(u);
    forall i | 0 <= i < |s|
      ensures ul[i] == u[i] && uu[i] == u[i]
    {
      CharCaseAbsorbs(s[i]);
    }
    assert |ul| == |u| && |uu| == |u|;
  }

  /** Character version of CaseFoldUnique. */
  lemma CharFoldUnique(x: char, c: char)
    requires ToLowerChar(x) == ToLowerChar(c)
    ensures !('a' <= x <= 'z') ==> x == ToUpperChar(c)
    ensures !('A' <= x <= 'Z') ==> x == ToLowerChar(c)
  {
  }

  /** A string with no lower-case letter that folds to the same lower case as
      `s` is exactly `ToUppercase(s)`; likewise for lower case. So the two
      conversions are pinned down by "same letters" and "one case only". */
  lemma CaseFoldUnique(a: string, s: string)
    requires ToLowercase(a) == ToLowercase(s)
    ensures NoLower(a) ==> a == ToUppercase(s)
    ensures NoUpper(a) ==> a == ToLowercase(s)
  {
    assert |a| == |s| by {
      assert |ToLowercase(a)| == |ToLowercase(s)|;
    }
    forall i | 0 <= i < |a|
      ensures !('a' <= a[i] <= 'z') ==> a[i] == ToUppercase(s)[i]
      ensures !('A' <= a[i] <= 'Z') ==> a[i] == ToLowercase(s)[i]
    {
      assert ToLowercase(a)[i] == ToLowercase(s)[i];
      CharFoldUnique(a[i], s[i]);
    }
  }

  /** `a < b` on `std::string`: lexicographic by character code, a proper
      prefix coming first. */
  function LexLess(a: string, b: string): bool
    ensures LexLess(a, b) ==> a != b
  {
    if |b| == 0 then false
    else if |a| == 0 then true
    else if a[0] != b[0] then a[0] < b[0]
    else LexLess(a[1..], b[1..])
  }

  /** The textbook definition of that ordering, independent of LexLess. */
  ghost predicate StringLess(a: string, b: string)
  {
    (|a| < |b| && a == b[..|a|])
    || exists k :: 0 <= k < |a| && k < |b| && a[..k] == b[..k] && a[k] < b[k]
  }

  lemma {:induction false} LexLessMeaning(a: string, b: string)
    ensures LexLess(a, b) <==> StringLess(a, b)
  {
    if |a| == 0 || |b| == 0 {
      if |b| > 0 {
        assert a == b[..0];
      }
    } else if a[0] != b[0] {
      if a[0] < b[0] {
        assert a[..0] == b[..0];
      } else {
        assert forall k :: 0 < k <= |a| && k <= |b| ==> a[..k][0] == a[0] && b[..k][0] == b[0];
        if |a| < |b| {
          assert a[0] != b[..|a|][0];
        }
      }
    } else {
      var a', b' := a[1..], b[1..];
      LexLessMeaning(a', b');
      if StringLess(a', b') {
        if |a'| < |b'| && a' == b'[..|a'|] {
          assert a == [a[0]] + a' && b[..|a|] == [b[0]] + b'[..|a'|];
        } else {
          var k :| 0 <= k < |a'| && k < |b'| && a'[..k] == b'[..k] && a'[k] < b'[k];
          assert a[..k + 1] == [a[0]] + a'[..k] && b[..k + 1] == [b[0]] + b'[..k];
          assert a[k + 1] == a'[k] && b[k + 1] == b'[k];
        }
      }
      if StringLess(a, b) {
        if |a| < |b| && a == b[..|a|] {
          assert a' == b'[..|a'|];
        } else {
          var k :| 0 <= k < |a| && k < |b| && a[..k] == b[..k] && a[k] < b[k];
          assert k > 0;
          assert a'[..k - 1] == a[..k][1..] && b'[..k - 1] == b[..k][1..];
          assert a'[k - 1] == a[k] && b'[k - 1] == b[k];
        }
      }
    }
  }

  lemma {:induction false} LexLessAsymmetric(a: string, b: string)
    ensures !(LexLess(a, b) && LexLess(b, a))
  {
    if |a| > 0 && |b| > 0 && a[0] == b[0] {
      LexLessAsymmetric(a[1..], b[1..]);
    }
  }

  lemma {:induction false} LexLessTotal(a: string, b: string)
    ensures a == b || LexLess(a, b) || LexLess(b, a)
  {
    if |a| > 0 && |b| > 0 && a[0] == b[0] {
      LexLessTotal(a[1..], b[1..]);
      if a[1..] == b[1..] {
        assert a == [a[0]] + a[1..] && b == [b[0]] + b[1..];
      }
    }
  }

  lemma {:induction false} LexLessTransitive(a: string, b: string, c: string)
    requires LexLess(a, b) && LexLess(b, c)
    ensures LexLess(a, c)
  {
    if |a| > 0 && a[0] == b[0] && b[0] == c[0] {
      LexLessTransitive(a[1..], b[1..], c[1..]);
    }
  }

  /** `needle` occurs in `hay` starting at position `k`. */
  ghost predicate OccursAt(hay: string, needle: string, k: nat)
  {
    k + |needle| <= |hay| && hay[k..k + |needle|] == needle
  }

  /** `hay.find(needle, from)`: the first occurrence at or after `from`, or
      None where the library returns `npos`. */
  function FindFrom(hay: string, needle: string, from: nat): (r: Option<nat>)
    ensures r.Some? ==> from <= r.value && OccursAt(hay, needle, r.value)
    ensures r.Some? ==> forall j: nat :: from <= j < r.value ==> !OccursAt(hay, needle, j)
    ensures r.None? ==> forall j: nat :: from <= j ==> !OccursAt(hay, needle, j)
    decreases |hay| - from
  {
    if from + |needle| > |hay| then None
    else if hay[from..from + |needle|] == needle then Some(from)
    else FindFrom(hay, needle, from + 1)
  }

  /** `needle` occurs somewhere in `hay`. */
  ghost predicate Occurs(hay: string, needle: string)
  {
    exists k: nat :: OccursAt(hay, needle, k)
  }

  /** `hay.find(needle) != string::npos`: the needle occurs somewhere. */
  predicate Contains(hay: string, needle: string)
    ensures Contains(hay, needle) <==> Occurs(hay, needle)
  {
    FindFrom(hay, needle, 0).Some?
  }
}
