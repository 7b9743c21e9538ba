/** String operations the sources use: length, join, split, whitespace, search. */
module Strings {
  /** `s.length`: a character outside the basic plane takes two UTF-16 code units. */
  function Units(s: string): nat {
    if s == "" then 0 else (if s[0] as int >= 0x1_0000 then 2 else 1) + Units(s[1..])
  }

  lemma {:induction false} UnitsConcat(s: string, t: string)
    ensures Units(s + t) == Units(s) + Units(t)
  {
    if s == "" {
      assert s + t == t;
    } else {
      assert (s + t)[1..] == s[1..] + t;
      UnitsConcat(s[1..], t);
    }
  }

  lemma {:induction false} UnitsBound(s: string)
    ensures Units(s) <= 2 * |s|
  {
    if s != "" {
      UnitsBound(s[1..]);
    }
  }

  /** `parts.join(separator)` */
  function Join(parts: seq<string>, separator: string): string {
    if parts == [] then ""
    else if |parts| == 1 then parts[0]
    else parts[0] + separator + Join(parts[1..], separator)
  }

  /** `s.split(c)` for a one-character separator. */
  function Split(s: string, c: char): (parts: seq<string>)
    ensures parts != []
  {
    if s == "" then [""]
    else
      var rest := Split(s[1..], c);
      if s[0] == c then [""] + rest else [[s[0]] + rest[0]] + rest[1..]
  }

  lemma {:induction false} SplitWithout(s: string, c: char)
    requires c !in s
    ensures Split(s, c) == [s]
  {
    if s != "" {
      SplitWithout(s[1..], c);
      assert s == [s[0]] + s[1..];
    }
  }

  lemma {:induction false} SplitConcat(s: string, c: char, t: string)
    requires c !in s
    ensures Split(s + [c] + t, c) == [s] + Split(t, c)
  {
    if s == "" {
      assert s + [c] + t == [c] + t;
      assert ([c] + t)[1..] == t;
    } else {
      SplitConcat(s[1..], c, t);
      assert (s + [c] + t)[1..] == s[1..] + [c] + t;
      assert [s[0]] + s[1..] == s;
    }
  }

  /** Splitting undoes joining, when no part contains the separator. */
  lemma {:induction false} SplitJoin(parts: seq<string>, c: char)
    requires parts != []
    requires forall i | 0 <= i < |parts| :: c !in parts[i]
    ensures Split(Join(parts, [c]), c) == parts
  {
    if |parts| == 1 {
      SplitWithout(parts[0], c);
    } else {
      SplitJoin(parts[1..], c);
      SplitConcat(parts[0], c, Join(parts[1..], [c]));
      assert parts == [parts[0]] + parts[1..];
    }
  }

  lemma {:induction false} JoinSplit(s: string, c: char)
    ensures Join(Split(s, c), [c]) == s
  {
    if s != "" {
      JoinSplit(s[1..], c);
      var rest := Split(s[1..], c);
      if s[0] == c {
        assert Split(s, c)[1..] == rest;
        assert Join(Split(s, c), [c]) == "" + [c] + Join(rest, [c]);
      } else {
        var parts := Split(s, c);
        assert parts[1..] == rest[1..] && parts[0] == [s[0]] + rest[0];
        if |rest| > 1 {
          assert Join(parts, [c]) == [s[0]] + (rest[0] + [c] + Join(rest[1..], [c]));
        }
      }
    }
  }

  lemma {:induction false} SplitHasNoSeparator(s: string, c: char)
    ensures forall i | 0 <= i < |Split(s, c)| :: c !in Split(s, c)[i]
  {
    if s != "" {
      SplitHasNoSeparator(s[1..], c);
    }
  }

  lemma {:induction false} JoinConcat(a: seq<string>, b: seq<string>, separator: string)
    requires a != [] && b != []
    ensures Join(a + b, separator) == Join(a, separator) + separator + Join(b, separator)
  {
    if |a| == 1 {
      assert (a + b)[1..] == b;
    } else {
      JoinConcat(a[1..], b, separator);
      assert (a + b)[1..] == a[1..] + b;
    }
  }

  lemma {:induction false} JoinHas(parts: seq<string>, separator: string, c: char)
    requires c !in separator && forall i | 0 <= i < |parts| :: c !in parts[i]
    ensures c !in Join(parts, separator)
  {
    if |parts| > 1 {
      JoinHas(parts[1..], separator, c);
    }
  }

  /** WhiteSpace and LineTerminator of ECMA-262: what `\s` matches and `trim` removes. */
  predicate IsSpace(c: char) {
    || '\t' <= c <= '\r'
    || c == ' ' || c == '\U{A0}' || c == '\U{1680}' || '\U{2000}' <= c <= '\U{200A}'
    || c == '\U{2028}' || c == '\U{2029}' || c == '\U{202F}' || c == '\U{205F}' || c == '\U{3000}' || c == '\U{FEFF}'
  }

  /** What `.` does not match in a regular expression. */
  predicate IsLineTerminator(c: char) {
    c == '\n' || c == '\r' || c == '\U{2028}' || c == '\U{2029}'
  }

  function TrimStart(s: string): (t: string)
    ensures t != "" ==> !IsSpace(t[0])
    ensures |t| <= |s| && s[|s| - |t|..] == t
    ensures forall i | 0 <= i < |s| - |t| :: IsSpace(s[i])
  {
    if s != "" && IsSpace(s[0]) then TrimStart(s[1..]) else s
  }

  function TrimEnd(s: string): (t: string)
    ensures t != "" ==> !IsSpace(t[|t| - 1])
    ensures t <= s
    ensures forall i | |t| <= i < |s| :: IsSpace(s[i])
  {
    if s != "" && IsSpace(s[|s| - 1]) then TrimEnd(s[..|s| - 1]) else s
  }

  function Trim(s: string): string {
    TrimEnd(TrimStart(s))
  }

  lemma TrimId(s: string)
    requires s != "" ==> !IsSpace(s[0]) && !IsSpace(s[|s| - 1])
    ensures Trim(s) == s
  {
  }

  function Spaces(n: nat): (s: string)
    ensures |s| == n && forall i | 0 <= i < n :: s[i] == ' '
  {
    seq(n, _ => ' ')
  }
}
