/**
 * The Python string operations the loaders rely on: `str.strip`, `str.split(",")`,
 * `str.lower`, `str.replace(" ", "")`, the `in` substring test and `str(int)`.
 */
module Text {

  /** Python's `str.isspace` for one character (the whitespace `strip()` removes). */
  predicate IsSpace(c: char)
  {
    var n := c as int;
    (9 <= n <= 13) || (28 <= n <= 32) || n == 0x85 || n == 0xA0 || n == 0x1680
    || (0x2000 <= n <= 0x200A) || n == 0x2028 || n == 0x2029 || n == 0x202F
    || n == 0x205F || n == 0x3000
  }

  /** Leading whitespace removed. */
  function TrimStart(s: string): (r: string)
    ensures |r| <= |s| && r == s[|s| - |r|..]
    ensures r == [] || !IsSpace(r[0])
    ensures forall k :: 0 <= k < |s| - |r| ==> IsSpace(s[k])
  {
    if |s| > 0 && IsSpace(s[0]) then TrimStart(s[1..]) else s
  }

  /** Trailing whitespace removed. */
  function TrimEnd(s: string): (r: string)
    ensures |r| <= |s| && r == s[..|r|]
    ensures r == [] || !IsSpace(r[|r| - 1])
    ensures forall k :: |r| <= k < |s| ==> IsSpace(s[k])
  {
    if |s| > 0 && IsSpace(s[|s| - 1]) then TrimEnd(s[..|s| - 1]) else s
  }

  /** `sub` occurs in `s` at position `i`. */
  predicate OccursAt(s: string, sub: string, i: int)
  {
    0 <= i <= |s| - |sub| && s[i..i + |sub|] == sub
  }

  /** `r` is the infix of `s` at `i`, and everything around it is whitespace. */
  predicate StrippedAt(s: string, r: string, i: int)
  {
    && OccursAt(s, r, i)
    && (forall k :: 0 <= k < i ==> IsSpace(s[k]))
    && (forall k :: i + |r| <= k < |s| ==> IsSpace(s[k]))
  }

  /**
   * `s.strip()`: the infix of `s` left after removing whitespace at both ends;
   * it neither starts nor ends with whitespace.
   */
  function Strip(s: string): (r: string)
    ensures |r| <= |s|
  {
    TrimEnd(TrimStart(s))
  }

  /**
   * What `strip` leaves is an infix of its input with only whitespace around it,
   * and it neither starts nor ends with whitespace.
   */
  lemma StripIsInfix(s: string)
    ensures StrippedAt(s, Strip(s), |s| - |TrimStart(s)|)
    ensures Strip(s) == [] || (!IsSpace(Strip(s)[0]) && !IsSpace(Strip(s)[|Strip(s)| - 1]))
  {
    var a := TrimStart(s);
    var r := TrimEnd(a);
    var i := |s| - |a|;
    InfixOfSuffix(s, a, r, i);
    assert Strip(s) == r;
  }

  /** A prefix `r` of the suffix `a == s[i..]` sits at `i` in `s`, followed by what `a` has after it. */
  lemma InfixOfSuffix(s: string, a: string, r: string, i: int)
    requires 0 <= i <= |s| && a == s[i..] && |r| <= |a| && r == a[..|r|]
    ensures OccursAt(s, r, i)
    ensures forall k :: i + |r| <= k < |s| ==> s[k] == a[k - i]
  {
  }

  lemma StripIdempotent(s: string)
    ensures Strip(Strip(s)) == Strip(s)
  {
    var r := Strip(s);
    assert TrimStart(r) == r;
    assert TrimEnd(r) == r;
  }

  /** The position of the first occurrence of `c` in `s`. */
  function IndexOf(s: string, c: char): (i: nat)
    requires c in s
    ensures i < |s| && s[i] == c && c !in s[..i]
  {
    if s[0] == c then 0 else 1 + IndexOf(s[1..], c)
  }

  /** `s.split(sep)` for a one-character separator: always at least one part. */
  function Split(s: string, sep: char): (parts: seq<string>)
    ensures |parts| >= 1
    ensures forall k :: 0 <= k < |parts| ==> sep !in parts[k]
    decreases |s|
  {
    if sep in s then
      var i := IndexOf(s, sep);
      [s[..i]] + Split(s[i + 1..], sep)
    else
      [s]
  }

  /** `sep.join(parts)`. */
  function Join(parts: seq<string>, sep: char): string
  {
    if |parts| == 0 then []
    else if |parts| == 1 then parts[0]
    else parts[0] + [sep] + Join(parts[1..], sep)
  }

  /** Splitting loses nothing: joining the parts again gives back the text. */
  lemma {:induction false} JoinSplit(s: string, sep: char)
    ensures Join(Split(s, sep), sep) == s
    decreases |s|
  {
    if sep in s {
      var i := IndexOf(s, sep);
      var rest := s[i + 1..];
      JoinSplit(rest, sep);
      assert Split(s, sep) == [s[..i]] + Split(rest, sep);
      assert s == s[..i] + [sep] + rest;
    }
  }

  /** Splitting a join of separator-free parts gives back the parts. */
  lemma {:induction false} SplitJoin(parts: seq<string>, sep: char)
    requires |parts| >= 1
    requires forall k :: 0 <= k < |parts| ==> sep !in parts[k]
    ensures Split(Join(parts, sep), sep) == parts
  {
    if |parts| > 1 {
      var s := Join(parts, sep);
      var rest := Join(parts[1..], sep);
      assert s == parts[0] + [sep] + rest;
      assert s[|parts[0]|] == sep;
      assert s[..|parts[0]|] == parts[0];
      assert sep in s;
      assert IndexOf(s, sep) == |parts[0]|;
      assert s[|parts[0]| + 1..] == rest;
      SplitJoin(parts[1..], sep);
    }
  }

  /**
   * `[str(s).strip() for s in text.split(",") if len(str(s).strip()) > 0]`:
   * the comma-separated entries of a list of ids, stripped, empty ones dropped.
   */
  function ParseIdList(text: string): (ids: seq<string>)
  {
    StripNonEmpty(Split(text, ','))
  }

  function StripNonEmpty(parts: seq<string>): (ids: seq<string>)
  {
    if |parts| == 0 then []
    else
      var head := Strip(parts[0]);
      (if |head| > 0 then [head] else []) + StripNonEmpty(parts[1..])
  }

  /** The first part contributes its stripped form, when that is not empty. */
  lemma StripNonEmptyUnfold(parts: seq<string>)
    requires |parts| > 0
    ensures StripNonEmpty(parts) ==
      (if |Strip(parts[0])| > 0 then [Strip(parts[0])] else []) + StripNonEmpty(parts[1..])
  {
  }

  /** Every part, stripped. */
  function StripAll(parts: seq<string>): (r: seq<string>)
    ensures |r| == |parts| && forall k :: 0 <= k < |parts| ==> r[k] == Strip(parts[k])
  {
    seq(|parts|, k requires 0 <= k < |parts| => Strip(parts[k]))
  }

  /** An entry survives exactly when it is the stripped form of some part and not empty. */
  lemma {:induction false} StripNonEmptyMembers(parts: seq<string>, id: string)
    ensures id in StripNonEmpty(parts) <==> id in StripAll(parts) && id != []
  {
    if |parts| > 0 {
      var rest := parts[1..];
      var head := Strip(parts[0]);
      StripNonEmptyUnfold(parts);
      StripNonEmptyMembers(rest, id);
      var all := StripAll(parts);
      assert all == [head] + StripAll(rest);
      assert id in all <==> id == head || id in StripAll(rest);
      if |head| > 0 {
        assert StripNonEmpty(parts) == [head] + StripNonEmpty(rest);
      } else {
        assert StripNonEmpty(parts) == StripNonEmpty(rest);
      }
    }
  }

  /** An id as the loaders store it: non-empty, comma-free, no surrounding whitespace. */
  predicate CleanId(id: string)
  {
    id != [] && ',' !in id && !IsSpace(id[0]) && !IsSpace(id[|id| - 1])
  }

  /** Stripping a comma-free part leaves it comma-free. */
  lemma StripCommaFree(part: string)
    requires ',' !in part
    ensures ',' !in Strip(part)
  {
    StripIsInfix(part);
    var i := |part| - |TrimStart(part)|;
    var head := Strip(part);
    assert head == part[i..i + |head|];
    forall k | 0 <= k < |head| ensures head[k] != ',' {
      assert head[k] == part[i + k] && part[i + k] in part;
    }
  }

  /** Every parsed id is non-empty, holds no comma and has no surrounding whitespace. */
  lemma {:induction false} ParsedIdsAreClean(parts: seq<string>)
    requires forall k :: 0 <= k < |parts| ==> ',' !in parts[k]
    ensures forall id :: id in StripNonEmpty(parts) ==> CleanId(id)
  {
    if |parts| > 0 {
      var head := Strip(parts[0]);
      ParsedIdsAreClean(parts[1..]);
      StripIsInfix(parts[0]);
      StripCommaFree(parts[0]);
      StripNonEmptyUnfold(parts);
      forall id | id in StripNonEmpty(parts) ensures CleanId(id) {
        if id !in StripNonEmpty(parts[1..]) {
          assert id == head;
        }
      }
    }
  }

  /** ASCII upper-case letters. */
  predicate IsUpper(c: char)
  {
    'A' <= c <= 'Z'
  }

  /** `s.lower()` on ASCII letters. */
  function Lower(s: string): (r: string)
    ensures |r| == |s|
    ensures forall k :: 0 <= k < |s| ==> !IsUpper(r[k])
    ensures forall k :: 0 <= k < |s| ==> r[k] == s[k] || (IsUpper(s[k]) && r[k] as int == s[k] as int + 32)
  {
    if |s| == 0 then []
    else [if IsUpper(s[0]) then (s[0] as int + 32) as char else s[0]] + Lower(s[1..])
  }

  /** `s.replace(" ", "")`. */
  function RemoveSpaces(s: string): (r: string)
    ensures ' ' !in r
    ensures |r| <= |s|
    ensures forall c :: c in r ==> c in s
  {
    if |s| == 0 then []
    else (if s[0] == ' ' then [] else [s[0]]) + RemoveSpaces(s[1..])
  }

  /** Python's `sub in s`. */
  predicate Contains(s: string, sub: string)
  {
    exists i | 0 <= i <= |s| - |sub| :: OccursAt(s, sub, i)
  }

  /** `str(n)` for an integer. */
  function IntToString(n: int): string
  {
    if n < 0 then "-" + NatToString(-n) else NatToString(n)
  }

  function NatToString(n: nat): string
  {
    if n < 10 then [Digit(n)] else NatToString(n / 10) + [Digit(n % 10)]
  }

  /** A printed integer holds only '-' and decimal digits. */
  lemma IntToStringDigits(n: int)
    ensures forall k :: 0 <= k < |IntToString(n)| ==> IntToString(n)[k] == '-' || '0' <= IntToString(n)[k] <= '9'
  {
    NatToStringDigits(if n < 0 then -n else n);
  }

  lemma {:induction false} NatToStringDigits(n: nat)
    ensures forall k :: 0 <= k < |NatToString(n)| ==> '0' <= NatToString(n)[k] <= '9'
  {
    if n >= 10 {
      NatToStringDigits(n / 10);
    }
  }

  function Digit(d: nat): char
    requires d < 10
  {
    "0123456789"[d]
  }
}
