/** The string operations the controllers and the authorization gate rely on:
    JavaScript truthiness of an optional string, `String.prototype.trim`,
    ASCII lower-casing, `split(' ')` and `includes`. */
module Text {
  import opened Results

  /** `if (!x)` on a value that is either missing (undefined) or a string:
      only a present, non-empty string is truthy. */
  predicate Truthy(x: Option<string>) {
    x.Some? && x.value != ""
  }

  // ---------------------------------------------------------------------
  // trim

  /** The code points that `trim` removes: ECMAScript's WhiteSpace
      (tab, vertical tab, form feed, space, no-break space, the byte order
      mark and the other space separators) and its LineTerminators. */
  predicate IsTrimmable(c: char) {
    || c == '\t' || c == '\n' || c == '\U{B}' || c == '\U{C}' || c == '\r'
    || c == ' ' || c == '\U{A0}' || c == '\U{1680}'
    || ('\U{2000}' <= c <= '\U{200A}')
    || c == '\U{2028}' || c == '\U{2029}' || c == '\U{202F}' || c == '\U{205F}'
    || c == '\U{3000}' || c == '\U{FEFF}'
  }

  function TrimStart(s: string): string {
    if |s| > 0 && IsTrimmable(s[0]) then TrimStart(s[1..]) else s
  }

  function TrimEnd(s: string): string {
    if |s| > 0 && IsTrimmable(s[|s| - 1]) then TrimEnd(s[..|s| - 1]) else s
  }

  function Trim(s: string): string {
    TrimEnd(TrimStart(s))
  }

  /** `!s.trim()`: the trimmed string is empty. */
  predicate IsBlank(s: string) {
    Trim(s) == ""
  }

  predicate AllTrimmable(s: string) {
    forall i | 0 <= i < |s| :: IsTrimmable(s[i])
  }

  lemma {:induction false} TrimStartEmpty(s: string)
    ensures TrimStart(s) == "" <==> AllTrimmable(s)
  {
    if |s| > 0 && IsTrimmable(s[0]) {
      TrimStartEmpty(s[1..]);
      assert AllTrimmable(s) <==> AllTrimmable(s[1..]) by {
        if AllTrimmable(s[1..]) {
          forall i | 0 <= i < |s| ensures IsTrimmable(s[i]) {
            if i > 0 { assert s[i] == s[1..][i - 1]; }
          }
        }
      }
    }
  }

  lemma {:induction false} TrimStartKeepsHead(s: string)
    ensures TrimStart(s) != "" ==> !IsTrimmable(TrimStart(s)[0])
  {
    if |s| > 0 && IsTrimmable(s[0]) {
      TrimStartKeepsHead(s[1..]);
    }
  }

  lemma {:induction false} TrimEndKeepsNonBlankHead(s: string)
    requires |s| > 0 && !IsTrimmable(s[0])
    ensures TrimEnd(s) != ""
  {
    if IsTrimmable(s[|s| - 1]) {
      TrimEndKeepsNonBlankHead(s[..|s| - 1]);
    }
  }

  /** A string is blank for `trim` exactly when every one of its code points
      is white space or a line terminator. */
  lemma {:induction false} BlankIffAllTrimmable(s: string)
    ensures IsBlank(s) <==> AllTrimmable(s)
  {
    TrimStartEmpty(s);
    TrimStartKeepsHead(s);
    if TrimStart(s) != "" {
      TrimEndKeepsNonBlankHead(TrimStart(s));
    }
  }

  // ---------------------------------------------------------------------
  // toLowerCase

  /** Lower-casing of one code point, for the ASCII letters A to Z. */
  function LowerChar(c: char): char {
    if 'A' <= c <= 'Z' then (c as int + 32) as char else c
  }

  /** `toLowerCase`, for the ASCII strings it is applied to here. */
  function ToLower(s: string): (r: string)
    ensures |r| == |s|
    ensures forall i | 0 <= i < |s| :: r[i] == LowerChar(s[i])
  {
    if s == [] then [] else [LowerChar(s[0])] + ToLower(s[1..])
  }

  /** Lower-casing twice changes nothing more, so a stored (lower-cased) email
      is found again by the lower-cased form of any of its spellings. */
  lemma LowerIdempotent(s: string)
    ensures ToLower(ToLower(s)) == ToLower(s)
  {
  }

  /** The result holds no upper-case ASCII letter, and every other code point
      of the input is left as it was. */
  lemma LowerOnlyTouchesUpperCase(s: string)
    ensures forall i | 0 <= i < |s| :: !('A' <= ToLower(s)[i] <= 'Z')
    ensures forall i | 0 <= i < |s| && !('A' <= s[i] <= 'Z') :: ToLower(s)[i] == s[i]
  {
  }

  // ---------------------------------------------------------------------
  // split

  /** `s.split(sep)` for a one-character separator: the pieces between
      consecutive separators, so `n` separators give `n + 1` pieces. */
  function Split(s: string, sep: char): (parts: seq<string>)
    ensures |parts| >= 1
    ensures forall k | 0 <= k < |parts| :: sep !in parts[k]
    ensures |parts| == 1 <==> sep !in s
  {
    if |s| == 0 then [""]
    else
      var rest := Split(s[1..], sep);
      if s[0] == sep then [""] + rest else [[s[0]] + rest[0]] + rest[1..]
  }

  /** `parts.join(sep)`. */
  function Join(parts: seq<string>, sep: char): string
    requires |parts| >= 1
  {
    if |parts| == 1 then parts[0] else parts[0] + [sep] + Join(parts[1..], sep)
  }

  lemma {:induction false} JoinSplit(s: string, sep: char)
    ensures Join(Split(s, sep), sep) == s
  {
    if |s| > 0 {
      JoinSplit(s[1..], sep);
      var rest := Split(s[1..], sep);
      if s[0] == sep {
        assert Split(s, sep)[1..] == rest;
      } else {
        var parts := Split(s, sep);
        if |rest| == 1 {
          assert parts == [[s[0]] + rest[0]];
        } else {
          assert parts[1..] == rest[1..];
          assert Join(rest, sep) == rest[0] + [sep] + Join(rest[1..], sep);
        }
      }
    }
  }

  lemma {:induction false} SplitNoSeparator(a: string, sep: char)
    requires sep !in a
    ensures Split(a, sep) == [a]
  {
    if |a| > 0 {
      SplitNoSeparator(a[1..], sep);
      assert [a[0]] + a[1..] == a;
    }
  }

  lemma {:induction false} SplitAfterPiece(a: string, sep: char, r: string)
    requires sep !in a
    ensures Split(a + [sep] + r, sep) == [a] + Split(r, sep)
  {
    var s := a + [sep] + r;
    if |a| == 0 {
      assert s[1..] == r;
    } else {
      assert s[1..] == a[1..] + [sep] + r;
      SplitAfterPiece(a[1..], sep, r);
      assert [a[0]] + a[1..] == a;
    }
  }

  /** Splitting undoes joining pieces that hold no separator. */
  lemma {:induction false} SplitJoin(parts: seq<string>, sep: char)
    requires |parts| >= 1
    requires forall k | 0 <= k < |parts| :: sep !in parts[k]
    ensures Split(Join(parts, sep), sep) == parts
  {
    if |parts| == 1 {
      SplitNoSeparator(parts[0], sep);
    } else {
      SplitJoin(parts[1..], sep);
      SplitAfterPiece(parts[0], sep, Join(parts[1..], sep));
      assert [parts[0]] + parts[1..] == parts;
    }
  }

  // ---------------------------------------------------------------------
  // includes

  predicate OccursAt(s: string, t: string, i: int) {
    0 <= i <= |s| - |t| && s[i..i + |t|] == t
  }

  /** `s.includes(t)`. */
  predicate Includes(s: string, t: string) {
    exists i | 0 <= i <= |s| - |t| :: OccursAt(s, t, i)
  }

  /** `s.includes(t)` holds exactly when `s` is some `a + t + b`. */
  lemma {:induction false} IncludesIffInfix(s: string, t: string)
    ensures Includes(s, t) <==> exists i | 0 <= i <= |s| - |t| :: s[..i] + t + s[i + |t|..] == s
  {
    if Includes(s, t) {
      var i :| 0 <= i <= |s| - |t| && OccursAt(s, t, i);
      assert s[..i] + s[i..i + |t|] + s[i + |t|..] == s;
    }
    if exists i | 0 <= i <= |s| - |t| :: s[..i] + t + s[i + |t|..] == s {
      var i :| 0 <= i <= |s| - |t| && s[..i] + t + s[i + |t|..] == s;
      assert (s[..i] + t + s[i + |t|..])[i..i + |t|] == t;
      assert OccursAt(s, t, i);
    }
  }

  lemma IncludesSuffix(a: string, b: string)
    ensures Includes(a + b, b)
  {
    assert OccursAt(a + b, b, |a|);
  }

  lemma LongerNotIncluded(s: string, t: string)
    requires |s| < |t|
    ensures !Includes(s, t)
  {
  }
}
