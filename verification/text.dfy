/** The character-string operations of Python that the host tools rely on:
    whitespace stripping, lower-casing, substring search, splitting on a
    separator and replacing a character.  Strings are sequences of Unicode
    code points, as Python's `str` is. */
module Text {
  import opened Wrappers

  /** Python's `str.isspace()`: the characters `str.split()` and `str.strip()`
      treat as whitespace. */
  predicate IsSpace(c: char)
  {
    var n := c as int;
    n == 0x20 || 0x09 <= n <= 0x0D || 0x1C <= n <= 0x1F || n == 0x85 || n == 0xA0
    || n == 0x1680 || 0x2000 <= n <= 0x200A || n == 0x2028 || n == 0x2029
    || n == 0x202F || n == 0x205F || n == 0x3000
  }

  /** `s` without its leading whitespace. */
  function StripStart(s: string): (r: string)
    ensures |r| <= |s| && r == s[|s| - |r|..]
    ensures |r| > 0 ==> !IsSpace(r[0])
    ensures forall i | 0 <= i < |s| - |r| :: IsSpace(s[i])
    decreases |s|
  {
    if |s| > 0 && IsSpace(s[0]) then StripStart(s[1..]) else s
  }

  /** `s` without its trailing whitespace. */
  function StripEnd(s: string): (r: string)
    ensures |r| <= |s| && r == s[..|r|]
    ensures |r| > 0 ==> !IsSpace(r[|r| - 1])
    ensures forall i | |r| <= i < |s| :: IsSpace(s[i])
    decreases |s|
  {
    if |s| > 0 && IsSpace(s[|s| - 1]) then StripEnd(s[..|s| - 1]) else s
  }

  /** `t` occurs in `s` starting at position `i`. */
  predicate OccursAt(s: string, t: string, i: int)
  {
    0 <= i && i + |t| <= |s| && s[i..i + |t|] == t
  }

  /** `r` is the slice of `s` at `i` with only whitespace on either side. */
  predicate TrimmedAt(s: string, r: string, i: int)
  {
    OccursAt(s, r, i)
    && (forall k | 0 <= k < i :: IsSpace(s[k]))
    && (forall k | i + |r| <= k < |s| :: IsSpace(s[k]))
  }

  /** `s.strip()`: the longest slice of `s` that neither starts nor ends with
      whitespace, with only whitespace cut on either side. */
  function Strip(s: string): (r: string)
    ensures exists i :: TrimmedAt(s, r, i)
    ensures |r| > 0 ==> !IsSpace(r[0]) && !IsSpace(r[|r| - 1])
  {
    var t := StripStart(s);
    var r := StripEnd(t);
    var i := |s| - |t|;
    assert r == s[i..i + |r|];
    assert TrimmedAt(s, r, i);
    r
  }

  /** KELVIN SIGN and LATIN CAPITAL LETTER I WITH DOT ABOVE: the only
      characters outside `A`..`Z` whose lower case holds an ASCII letter. */
  const KELVIN: char := '\U{212A}'
  const DOTTED_CAPITAL_I: char := '\U{0130}'

  /** A character that lower-casing keeps as it is, as far as this model
      goes. */
  predicate Lowered(c: char)
  {
    !('A' <= c <= 'Z') && c != KELVIN && c != DOTTED_CAPITAL_I
  }

  /** `c.lower()` wherever the result holds an ASCII character: `A`..`Z`
      become `a`..`z`, the Kelvin sign `k`, and the dotted capital I an `i`
      followed by a combining dot above.  Every other character is kept;
      Python may map it to other non-ASCII characters, which adds or removes
      no occurrence of an ASCII word. */
  function LowerChar(c: char): (r: string)
  {
    if 'A' <= c <= 'Z' then [(c as int + 32) as char]
    else if c == KELVIN then "k"
    else if c == DOTTED_CAPITAL_I then "i\U{0307}"
    else [c]
  }

  /** `s.lower()`, character by character.  Nothing lower-casing would
      change is left, and no character is lost. */
  function Lower(s: string): (r: string)
    ensures |r| >= |s|
    ensures forall i | 0 <= i < |r| :: Lowered(r[i])
    decreases |s|
  {
    if |s| == 0 then [] else LowerChar(s[0]) + Lower(s[1..])
  }

  /** Lower-casing leaves a string unchanged exactly when it holds nothing to
      lower. */
  lemma {:induction false} LowerFixed(s: string)
    ensures Lower(s) == s <==> forall i | 0 <= i < |s| :: Lowered(s[i])
    decreases |s|
  {
    if |s| > 0 && forall i | 0 <= i < |s| :: Lowered(s[i]) {
      assert forall i | 0 <= i < |s| - 1 :: Lowered(s[1..][i]) by {
        forall i | 0 <= i < |s| - 1 ensures Lowered(s[1..][i]) {
          assert s[1..][i] == s[i + 1];
        }
      }
      LowerFixed(s[1..]);
      assert s == [s[0]] + s[1..];
    }
  }

  /** Lower-casing works piecewise. */
  lemma {:induction false} LowerAppend(a: string, b: string)
    ensures Lower(a + b) == Lower(a) + Lower(b)
    decreases |a|
  {
    if |a| > 0 {
      assert (a + b)[1..] == a[1..] + b;
      LowerAppend(a[1..], b);
    } else {
      assert a + b == b;
    }
  }

  /** Lower-casing twice is lower-casing once. */
  lemma LowerIdempotent(s: string)
    ensures Lower(Lower(s)) == Lower(s)
  {
    LowerFixed(Lower(s));
  }

  predicate StartsWith(s: string, t: string)
  {
    |t| <= |s| && s[..|t|] == t
  }

  /** `t in s`, searched from the left. */
  predicate Contains(s: string, t: string)
    decreases |s|
  {
    StartsWith(s, t) || (|s| > 0 && Contains(s[1..], t))
  }

  /** The search finds `t` exactly when `t` occurs somewhere in `s`. */
  lemma {:induction false} ContainsIff(s: string, t: string)
    ensures Contains(s, t) <==> exists i :: OccursAt(s, t, i)
    decreases |s|
  {
    if |s| > 0 {
      ContainsIff(s[1..], t);
      if exists i :: OccursAt(s, t, i) {
        var i :| OccursAt(s, t, i);
        if i > 0 {
          assert OccursAt(s[1..], t, i - 1);
        } else {
          assert StartsWith(s, t);
        }
      }
      if Contains(s[1..], t) {
        var i :| OccursAt(s[1..], t, i);
        assert OccursAt(s, t, i + 1);
      }
      if StartsWith(s, t) {
        assert OccursAt(s, t, 0);
      }
    } else {
      if exists i :: OccursAt(s, t, i) {
        var i :| OccursAt(s, t, i);
        assert StartsWith(s, t);
      }
      if StartsWith(s, t) {
        assert OccursAt(s, t, 0);
      }
    }
  }

  /** Position of the first `c` in `s`, or `|s|` when there is none. */
  function Find(s: string, c: char): (k: nat)
    ensures k <= |s|
    ensures k < |s| ==> s[k] == c
    ensures forall i | 0 <= i < k :: s[i] != c
    decreases |s|
  {
    if |s| == 0 then 0 else if s[0] == c then 0 else 1 + Find(s[1..], c)
  }

  /** `s.split(sep)` for a one-character separator: the pieces between
      consecutive separators, at least one of them. */
  function Split(s: string, sep: char): (parts: seq<string>)
    ensures |parts| >= 1
    ensures forall p | p in parts :: sep !in p
    decreases |s|
  {
    var k := Find(s, sep);
    if k == |s| then [s] else [s[..k]] + Split(s[k + 1..], sep)
  }

  /** `sep.join(parts)`. */
  function Join(parts: seq<string>, sep: char): string
  {
    if |parts| == 0 then []
    else if |parts| == 1 then parts[0]
    else parts[0] + [sep] + Join(parts[1..], sep)
  }

  /** Joining the pieces back restores the string. */
  lemma {:induction false} JoinSplit(s: string, sep: char)
    ensures Join(Split(s, sep), sep) == s
    decreases |s|
  {
    var k := Find(s, sep);
    if k < |s| {
      JoinSplit(s[k + 1..], sep);
      CutAround(s, k);
    }
  }

  /** `s` is the part before position `k`, the element there and the rest. */
  lemma CutAround<T>(s: seq<T>, k: nat)
    requires k < |s|
    ensures s == s[..k] + [s[k]] + s[k + 1..]
  {
  }

  /** The first separator of `p + [sep] + rest` is the one after `p`
      when `p` has none. */
  lemma {:induction false} FindAfter(p: string, sep: char, rest: string)
    requires sep !in p
    ensures Find(p + [sep] + rest, sep) == |p|
    decreases |p|
  {
    if |p| > 0 {
      assert (p + [sep] + rest)[1..] == p[1..] + [sep] + rest;
      assert p[0] in p;
      assert forall c | c in p[1..] :: c in p;
      FindAfter(p[1..], sep, rest);
    }
  }

  /** A string without the separator is found to have none. */
  lemma {:induction false} FindNone(p: string, sep: char)
    requires sep !in p
    ensures Find(p, sep) == |p|
    decreases |p|
  {
    if |p| > 0 {
      assert p[0] in p;
      assert forall c | c in p[1..] :: c in p;
      FindNone(p[1..], sep);
    }
  }

  /** Splitting a join of separator-free pieces gives the pieces back. */
  lemma {:induction false} SplitJoin(parts: seq<string>, sep: char)
    requires |parts| >= 1
    requires forall p | p in parts :: sep !in p
    ensures Split(Join(parts, sep), sep) == parts
  {
    if |parts| == 1 {
      FindNone(parts[0], sep);
    } else {
      var p, tail := parts[0], parts[1..];
      var rest := Join(tail, sep);
      var s := p + [sep] + rest;
      assert Join(parts, sep) == s;
      assert p in parts;
      FindAfter(p, sep, rest);
      assert s[..|p|] == p && s[|p| + 1..] == rest;
      assert forall q | q in tail :: q in parts;
      SplitJoin(tail, sep);
    }
  }

  /** `s.replace(a, b)` for single characters. */
  function ReplaceChar(s: string, a: char, b: char): (r: string)
    ensures |r| == |s|
    ensures forall i | 0 <= i < |s| :: r[i] == (if s[i] == a then b else s[i])
  {
    seq(|s|, i requires 0 <= i < |s| => if s[i] == a then b else s[i])
  }

  /** Position of the first whitespace character of `s`, or `|s|`. */
  function FindSpace(s: string): (k: nat)
    ensures k <= |s|
    ensures k < |s| ==> IsSpace(s[k])
    ensures forall i | 0 <= i < k :: !IsSpace(s[i])
    decreases |s|
  {
    if |s| == 0 || IsSpace(s[0]) then 0 else 1 + FindSpace(s[1..])
  }

  /** `s.split()[0]` when `s.split()` is not empty: the first maximal run of
      non-whitespace characters. */
  function FirstField(s: string): (r: Option<string>)
    ensures r.None? <==> forall i | 0 <= i < |s| :: IsSpace(s[i])
    ensures r.Some? ==> |r.value| > 0 && exists i :: OccursAt(s, r.value, i)
    ensures r.Some? ==> forall i | 0 <= i < |r.value| :: !IsSpace(r.value[i])
  {
    var t := StripStart(s);
    if |t| == 0 then None
    else
      var f := t[..FindSpace(t)];
      assert OccursAt(s, f, |s| - |t|);
      Some(f)
  }
}
