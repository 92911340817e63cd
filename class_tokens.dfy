/** The class-attribute helpers of version 0.5.1.4 (the region taken over
    from jQuery 1.7.1): `hasActiveClass`, `trim`, `removeActiveClass` and
    `addActiveClass`, as functions on the `className` string. The methods
    that write `className` back are in KcSwitcher514. */
module ClassTokens {

  /** A character matched by `\s` in a JavaScript regular expression; `\s`
      already includes U+FEFF and U+00A0, which the trim pattern also lists. */
  predicate IsSpace(c: char) {
    c == ' ' || c == '\t' || c == '\n' || c == '\r' || c == '\U{C}' || c == '\U{B}' ||
    c == '\U{A0}' || c == '\U{1680}' || ('\U{2000}' <= c <= '\U{200A}') ||
    c == '\U{2028}' || c == '\U{2029}' || c == '\U{202F}' || c == '\U{205F}' ||
    c == '\U{3000}' || c == '\U{FEFF}'
  }

  /** A character of `rclass = /[\t\r\n\f]/g`. */
  predicate IsClassSep(c: char) {
    c == '\t' || c == '\r' || c == '\n' || c == '\U{C}'
  }

  /** `s.replace(rclass, " ")`: every tab, carriage return, line feed and
      form feed becomes a space. */
  function Normalize(s: string): (r: string)
    ensures |r| == |s|
    ensures forall i :: 0 <= i < |s| ==> r[i] == if IsClassSep(s[i]) then ' ' else s[i]
  {
    if s == [] then [] else [if IsClassSep(s[0]) then ' ' else s[0]] + Normalize(s[1..])
  }

  /** `p` occurs in `s` at position `k`. */
  predicate OccursAt(s: string, p: string, k: int) {
    0 <= k && k + |p| <= |s| && s[k..k + |p|] == p
  }

  /** The first occurrence of `p` in `s` at or after `from`, or -1. */
  function IndexFrom(s: string, p: string, from: nat): (r: int)
    requires from <= |s|
    ensures r == -1 || (from <= r && OccursAt(s, p, r))
    ensures r == -1 ==> forall k :: from <= k ==> !OccursAt(s, p, k)
    ensures r >= 0 ==> forall k :: from <= k < r ==> !OccursAt(s, p, k)
    decreases |s| - from
  {
    if OccursAt(s, p, from) then from
    else if from == |s| then -1
    else IndexFrom(s, p, from + 1)
  }

  /** `s.indexOf(p)`. */
  function IndexOf(s: string, p: string): int {
    IndexFrom(s, p, 0)
  }

  /** `s.replace(p, rep)` with a string pattern: the first occurrence only. */
  function ReplaceFirst(s: string, p: string, rep: string): (r: string)
    ensures IndexOf(s, p) >= 0 ==> |r| == |s| - |p| + |rep|
  {
    var k := IndexOf(s, p);
    if k < 0 then s else s[..k] + rep + s[k + |p|..]
  }

  /** The loop `while (cur.indexOf(p) >= 0) cur = cur.replace(p, " ")`. */
  function StripAll(cur: string, p: string): (r: string)
    requires |p| >= 2
    ensures IndexOf(r, p) < 0
    decreases |cur|
  {
    if IndexOf(cur, p) >= 0 then StripAll(ReplaceFirst(cur, p, " "), p) else cur
  }

  /** How many whitespace characters `s` starts with. */
  function LeadingSpaces(s: string): (n: nat)
    ensures n <= |s|
    ensures forall k :: 0 <= k < n ==> IsSpace(s[k])
    ensures n < |s| ==> !IsSpace(s[n])
  {
    if s == [] || !IsSpace(s[0]) then 0 else 1 + LeadingSpaces(s[1..])
  }

  /** How many whitespace characters `s` ends with. */
  function TrailingSpaces(s: string): (n: nat)
    ensures n <= |s|
    ensures forall k :: |s| - n <= k < |s| ==> IsSpace(s[k])
    ensures n < |s| ==> !IsSpace(s[|s| - n - 1])
  {
    if s == [] || !IsSpace(s[|s| - 1]) then 0 else 1 + TrailingSpaces(s[..|s| - 1])
  }

  /** `trim(text)`: `text.replace(/^[\s﻿\xA0]+|[\s﻿\xA0]+$/g, "")`. */
  function Trim(s: string): string {
    var t := s[LeadingSpaces(s)..];
    t[..|t| - TrailingSpaces(t)]
  }

  /** `trim` cuts a leading and a trailing run of whitespace and nothing
      else: the result is the slice of `s` between them, and it neither
      starts nor ends with whitespace. */
  lemma {:induction false} TrimSlice(s: string)
    ensures LeadingSpaces(s) + |Trim(s)| <= |s|
    ensures Trim(s) == s[LeadingSpaces(s)..LeadingSpaces(s) + |Trim(s)|]
    ensures forall k :: 0 <= k < LeadingSpaces(s) ==> IsSpace(s[k])
    ensures forall k :: LeadingSpaces(s) + |Trim(s)| <= k < |s| ==> IsSpace(s[k])
    ensures Trim(s) != [] ==> !IsSpace(Trim(s)[0]) && !IsSpace(Trim(s)[|Trim(s)| - 1])
  {
    var i := LeadingSpaces(s);
    TrimIsSlice(s);
    TrailingOfSuffix(s, i);
    if Trim(s) != [] {
      assert Trim(s)[0] == s[i];
    }
  }

  /** `trim` takes one slice of `s`. */
  lemma {:induction false} TrimIsSlice(s: string)
    ensures Trim(s) == s[LeadingSpaces(s)..|s| - TrailingSpaces(s[LeadingSpaces(s)..])]
  {
    var i := LeadingSpaces(s);
    var n := TrailingSpaces(s[i..]);
    CutBothEnds(s, i, n);
  }

  /** Cutting `i` characters off the front and then `n` off the back takes
      one slice. */
  lemma CutBothEnds(s: string, i: nat, n: nat)
    requires i <= |s| && n <= |s| - i
    ensures s[i..][..|s| - i - n] == s[i..|s| - n]
  {
  }

  /** The trailing whitespace of a suffix of `s` is trailing whitespace of
      `s`, and the character before it is not whitespace. */
  lemma TrailingOfSuffix(s: string, i: nat)
    requires i <= |s|
    ensures forall k :: |s| - TrailingSpaces(s[i..]) <= k < |s| ==> IsSpace(s[k])
    ensures |s| - TrailingSpaces(s[i..]) > i ==> !IsSpace(s[|s| - TrailingSpaces(s[i..]) - 1])
  {
    var t := s[i..];
    var n := TrailingSpaces(t);
    forall k | |s| - n <= k < |s|
      ensures IsSpace(s[k])
    {
      assert s[k] == t[k - i];
    }
    if |s| - n > i {
      assert s[|s| - n - 1] == t[|t| - n - 1];
    }
  }

  /** `trim` leaves a string that has no outer whitespace as it is, and
      removes one added space on either side of it. */
  lemma TrimPadded(t: string)
    requires t != [] ==> !IsSpace(t[0]) && !IsSpace(t[|t| - 1])
    ensures Trim(" " + t + " ") == t
  {
    var s := " " + t + " ";
    assert s[1..] == t + " ";
    if t == [] {
      assert LeadingSpaces(s) == 2;
      assert Trim(s) == [];
    } else {
      assert LeadingSpaces(s[1..]) == 0;
      assert LeadingSpaces(s) == 1;
      assert (t + " ")[..|t|] == t;
      assert TrailingSpaces(t) == 0;
      assert TrailingSpaces(t + " ") == 1;
    }
  }

  /** A class name value that is a single token: non-empty, no whitespace. */
  predicate ValidToken(a: string) {
    a != [] && forall k :: 0 <= k < |a| ==> !IsSpace(a[k])
  }

  /** Every whitespace character of `s` is one that the code normalises: a
      space or a character of `rclass`. Characters such as U+00A0 or a
      vertical tab are not normalised but are cut by `trim`. */
  predicate PlainSpacing(s: string) {
    forall k :: 0 <= k < |s| ==> IsSpace(s[k]) ==> s[k] == ' ' || IsClassSep(s[k])
  }

  /** The search pattern `" " + activeClass + " "`. */
  function Padded(a: string): (p: string)
    ensures |p| == |a| + 2 && p[0] == ' ' && p[|p| - 1] == ' '
  {
    " " + a + " "
  }

  /** `hasActiveClass`: the padded token occurs in the padded, normalised
      class name. (The source returns `true` or falls off its end.) */
  predicate HasActiveClass(className: string, a: string) {
    IndexOf(Normalize(" " + className + " "), Padded(a)) >= 0
  }

  /** The `className` that `removeActiveClass` leaves. An empty class name is
      left alone; otherwise every padded occurrence is replaced by one space
      and the result is trimmed. */
  function RemovedClass(className: string, a: string): string {
    if className == "" then className
    else Trim(StripAll(Normalize(" " + className + " "), Padded(a)))
  }

  /** The `className` that `addActiveClass` leaves: the token is appended only
      when its padded form does not occur yet, and the result is trimmed. */
  function AddedClass(className: string, a: string): string {
    var cur := if className == "" then " " else Normalize(" " + className + " ");
    var cur' := if IndexOf(cur, Padded(a)) < 0 then cur + a + " " else cur;
    Trim(cur')
  }

  /** A string in which no occurrence can be found has none in any slice. */
  lemma NoOccurrenceInSlice(s: string, p: string, x: nat, y: nat)
    requires x <= y <= |s| && IndexOf(s, p) < 0
    ensures IndexOf(s[x..y], p) < 0
  {
    var r := IndexOf(s[x..y], p);
    if r >= 0 {
      assert OccursAt(s, p, x + r);
    }
  }

  /** An occurrence is found wherever it is. */
  lemma FoundWhereOccurs(s: string, p: string, k: int)
    requires OccursAt(s, p, k)
    ensures IndexOf(s, p) >= 0
  {
  }

  /** Normalising a string without `rclass` characters changes nothing. */
  lemma NormalizeNoSeps(s: string)
    requires forall k :: 0 <= k < |s| ==> !IsClassSep(s[k])
    ensures Normalize(s) == s
  {
  }

  /** The shape the removal loop keeps: starts and ends with a space, and
      its only whitespace character is the space. */
  predicate SpaceFramed(cur: string) {
    |cur| >= 1 && cur[0] == ' ' && cur[|cur| - 1] == ' ' &&
    forall k :: 0 <= k < |cur| ==> IsSpace(cur[k]) ==> cur[k] == ' '
  }

  /** Replacing a space-framed pattern by a space keeps the shape. */
  lemma ReplaceKeepsFramed(cur: string, p: string)
    requires SpaceFramed(cur) && |p| >= 2 && p[0] == ' ' && p[|p| - 1] == ' '
    requires IndexOf(cur, p) >= 0
    ensures SpaceFramed(ReplaceFirst(cur, p, " "))
  {
    var k := IndexOf(cur, p);
    var r := ReplaceFirst(cur, p, " ");
    assert r == cur[..k] + " " + cur[k + |p|..];
    forall q | 0 <= q < |r| && IsSpace(r[q])
      ensures r[q] == ' '
    {
      if q < k {
        assert r[q] == cur[q];
      } else if q > k {
        assert r[q] == cur[q - 1 + |p|];
      }
    }
    if k > 0 {
      assert r[0] == cur[0];
    }
    if k + |p| < |cur| {
      assert r[|r| - 1] == cur[|cur| - 1];
    }
  }

  /** The removal loop keeps the shape. */
  lemma {:induction false} StripAllFramed(cur: string, p: string)
    requires SpaceFramed(cur) && |p| >= 2 && p[0] == ' ' && p[|p| - 1] == ' '
    ensures SpaceFramed(StripAll(cur, p))
    decreases |cur|
  {
    if IndexOf(cur, p) >= 0 {
      ReplaceKeepsFramed(cur, p);
      StripAllFramed(ReplaceFirst(cur, p, " "), p);
    }
  }

  /** Trimming a space-framed string and padding it again gives back a slice
      of it (or two spaces, when nothing was left). */
  lemma {:induction false} PadTrimIsSlice(cur: string)
    requires SpaceFramed(cur)
    ensures var t := Trim(cur); var i := LeadingSpaces(cur);
      t != [] ==> 1 <= i && i + |t| + 1 <= |cur| && cur[i - 1..i + |t| + 1] == " " + t + " "
  {
    TrimSlice(cur);
    FrameAround(cur, Trim(cur), LeadingSpaces(cur));
  }

  /** A slice between two runs of whitespace, in a space-framed string, is
      that slice padded with a space on either side, when it is not empty. */
  lemma FrameAround(cur: string, t: string, i: nat)
    requires SpaceFramed(cur) && i + |t| <= |cur| && t == cur[i..i + |t|]
    requires forall k :: 0 <= k < i ==> IsSpace(cur[k])
    requires forall k :: i + |t| <= k < |cur| ==> IsSpace(cur[k])
    requires t != [] ==> !IsSpace(t[0]) && !IsSpace(t[|t| - 1])
    ensures t != [] ==> 1 <= i && i + |t| + 1 <= |cur| && cur[i - 1..i + |t| + 1] == " " + t + " "
  {
    if t != [] {
      assert t[0] == cur[i];
      assert t[|t| - 1] == cur[i + |t| - 1];
      assert IsSpace(cur[i - 1]) && IsSpace(cur[i + |t|]);
    }
  }

  /** A space-framed string keeps its plain spacing when padded and normalised. */
  lemma PlainSpacingFramed(className: string)
    requires PlainSpacing(className)
    ensures SpaceFramed(Normalize(" " + className + " "))
  {
    var s := " " + className + " ";
    var n := Normalize(s);
    forall k | 0 <= k < |n| && IsSpace(n[k])
      ensures n[k] == ' '
    {
      if 0 < k < |s| - 1 {
        assert s[k] == className[k - 1];
      }
    }
  }

  /** Trimming and re-padding a space-framed string creates no occurrence
      of a pattern longer than two characters. */
  lemma {:induction false} FramedTrimHasNoToken(cur: string, p: string)
    requires SpaceFramed(cur) && |p| >= 3 && IndexOf(cur, p) < 0
    ensures IndexOf(Normalize(" " + Trim(cur) + " "), p) < 0
  {
    var t := Trim(cur);
    if t == [] {
      assert Normalize(" " + t + " ") == "  ";
    } else {
      PaddedTrimHasNoToken(cur, p);
    }
  }

  /** The case of FramedTrimHasNoToken where something is left after
      trimming: the re-padded result is a slice of `cur`. */
  lemma {:induction false} PaddedTrimHasNoToken(cur: string, p: string)
    requires SpaceFramed(cur) && Trim(cur) != [] && IndexOf(cur, p) < 0
    ensures IndexOf(Normalize(" " + Trim(cur) + " "), p) < 0
  {
    var t := Trim(cur);
    PadTrimIsSlice(cur);
    var i := LeadingSpaces(cur);
    var u := " " + t + " ";
    assert cur[i - 1..i + |t| + 1] == u;
    FramedSliceHasNoToken(cur, p, i - 1, i + |t| + 1, u);
  }

  /** A slice `u` of a space-framed string without an occurrence is left as
      it is by normalising, so it still has none. */
  lemma {:induction false} FramedSliceHasNoToken(cur: string, p: string, x: nat, y: nat, u: string)
    requires SpaceFramed(cur) && x <= y <= |cur| && IndexOf(cur, p) < 0 && u == cur[x..y]
    ensures IndexOf(Normalize(u), p) < 0
  {
    forall k | 0 <= k < |u|
      ensures !IsClassSep(u[k])
    {
      assert u[k] == cur[x + k];
    }
    NormalizeNoSeps(u);
    NoOccurrenceInSlice(cur, p, x, y);
  }

  /** `removeActiveClass` removes every occurrence: unless the class name
      holds whitespace that `rclass` leaves and `trim` cuts, the element no
      longer has the active class afterwards. */
  lemma RemovedHasNoActive(className: string, a: string)
    requires a != [] && PlainSpacing(className)
    ensures !HasActiveClass(RemovedClass(className, a), a)
  {
    var p := Padded(a);
    if className == "" {
      assert Normalize(" " + "" + " ") == "  ";
    } else {
      var cur0 := Normalize(" " + className + " ");
      PlainSpacingFramed(className);
      StripAllFramed(cur0, p);
      FramedTrimHasNoToken(StripAll(cur0, p), p);
    }
  }

  /** An occurrence of the padded token survives trimming and re-padding. */
  lemma TrimKeepsToken(cur: string, a: string, k: int)
    requires ValidToken(a) && OccursAt(cur, Padded(a), k)
    ensures IndexOf(" " + Trim(cur) + " ", Padded(a)) >= 0
  {
    TrimSlice(cur);
    SliceKeepsToken(cur, a, Trim(cur), LeadingSpaces(cur), k);
  }

  /** The same, for any slice of `cur` with only whitespace around it. */
  lemma SliceKeepsToken(cur: string, a: string, t: string, i: nat, k: int)
    requires ValidToken(a) && OccursAt(cur, Padded(a), k)
    requires i + |t| <= |cur| && t == cur[i..i + |t|]
    requires forall m :: 0 <= m < i ==> IsSpace(cur[m])
    requires forall m :: i + |t| <= m < |cur| ==> IsSpace(cur[m])
    ensures IndexOf(" " + t + " ", Padded(a)) >= 0
  {
    var p := Padded(a);
    var j := i + |t|;
    assert p[1] == a[0] && p[|a|] == a[|a| - 1];
    assert cur[k..k + |p|][1] == cur[k + 1] && cur[k..k + |p|][|a|] == cur[k + |a|];
    assert i <= k + 1;
    assert k + |a| < j;
    var u := " " + t + " ";
    var q := k - i + 1;
    forall m | 0 <= m < |p|
      ensures u[q + m] == p[m]
    {
      assert cur[k + m] == p[m];
      if 0 < q + m <= |t| {
        assert u[q + m] == t[q + m - 1] == cur[k + m];
      }
    }
    assert u[q..q + |p|] == p;
    FoundWhereOccurs(u, p, q);
  }

  /** Re-padding a trimmed string without `rclass` characters needs no
      normalising. */
  lemma PadTrimNormalized(s: string)
    requires forall k :: 0 <= k < |s| ==> !IsClassSep(s[k])
    ensures Normalize(" " + Trim(s) + " ") == " " + Trim(s) + " "
  {
    TrimSlice(s);
    var t := Trim(s);
    var i := LeadingSpaces(s);
    assert forall k :: 0 <= k < |t| ==> t[k] == s[i + k];
    NormalizeNoSeps(" " + t + " ");
  }

  /** The string `addActiveClass` starts from: normalised, ending in a space. */
  lemma AddBase(className: string) returns (cur: string)
    ensures cur == if className == "" then " " else Normalize(" " + className + " ")
    ensures |cur| >= 1 && cur[|cur| - 1] == ' '
    ensures forall q :: 0 <= q < |cur| ==> !IsClassSep(cur[q])
    ensures PlainSpacing(className) ==> forall q :: 0 <= q < |cur| ==> IsSpace(cur[q]) ==> cur[q] == ' '
  {
    if className == "" {
      cur := " ";
    } else {
      cur := Normalize(" " + className + " ");
      if PlainSpacing(className) {
        PlainSpacingFramed(className);
      }
    }
  }

  /** Appending the token and a space to a string that ends in a space. */
  lemma AppendToken(cur: string, a: string)
    requires ValidToken(a) && |cur| >= 1 && cur[|cur| - 1] == ' '
    requires forall q :: 0 <= q < |cur| ==> !IsClassSep(cur[q])
    ensures OccursAt(cur + a + " ", Padded(a), |cur| - 1)
    ensures forall q :: 0 <= q < |cur + a + " "| ==> !IsClassSep((cur + a + " ")[q])
    ensures (forall q :: 0 <= q < |cur| ==> IsSpace(cur[q]) ==> cur[q] == ' ') ==>
            forall q :: 0 <= q < |cur + a + " "| ==> IsSpace((cur + a + " ")[q]) ==> (cur + a + " ")[q] == ' '
  {
    var c := cur + a + " ";
    var w := c[|cur| - 1..|cur| + |a| + 1];
    forall m | 0 <= m < |w|
      ensures w[m] == Padded(a)[m]
    {
      if 0 < m <= |a| {
        assert w[m] == a[m - 1];
      }
    }
    assert w == Padded(a);
    forall q | |cur| <= q < |c|
      ensures !IsSpace(c[q]) || c[q] == ' '
    {
      if q < |cur| + |a| {
        assert c[q] == a[q - |cur|];
      }
    }
    forall q | 0 <= q < |cur|
      ensures c[q] == cur[q]
    {
    }
  }

  /** The string `addActiveClass` trims: normalised, ending in the padded
      token or containing it already. */
  lemma AddCursor(className: string, a: string) returns (cur': string, k: int)
    requires ValidToken(a)
    ensures AddedClass(className, a) == Trim(cur')
    ensures OccursAt(cur', Padded(a), k)
    ensures forall q :: 0 <= q < |cur'| ==> !IsClassSep(cur'[q])
    ensures PlainSpacing(className) ==> forall q :: 0 <= q < |cur'| ==> IsSpace(cur'[q]) ==> cur'[q] == ' '
  {
    var p := Padded(a);
    var cur := AddBase(className);
    if IndexOf(cur, p) < 0 {
      AppendToken(cur, a);
      cur' := cur + a + " ";
      k := |cur| - 1;
    } else {
      cur' := cur;
      k := IndexOf(cur, p);
    }
  }

  /** `addActiveClass` leaves the active class in place. */
  lemma AddedHasActive(className: string, a: string)
    requires ValidToken(a)
    ensures HasActiveClass(AddedClass(className, a), a)
  {
    var cur', k := AddCursor(className, a);
    TrimKeepsToken(cur', a, k);
    PadTrimNormalized(cur');
  }

  /** `addActiveClass` is idempotent: a second call leaves the class name as
      the first one left it. */
  lemma AddedIdempotent(className: string, a: string)
    requires ValidToken(a)
    ensures AddedClass(AddedClass(className, a), a) == AddedClass(className, a)
  {
    var p := Padded(a);
    var cur', k := AddCursor(className, a);
    var t := Trim(cur');
    AddedHasActive(className, a);
    PadTrimNormalized(cur');
    TrimSlice(cur');
    assert IndexOf(" " + t + " ", p) >= 0;
    TrimPadded(t);
    assert AddedClass(t, a) == Trim(" " + t + " ");
  }

  /** Trimming a string that starts and ends with a space cuts at least
      those two characters. */
  lemma TrimFramedShorter(s: string)
    requires |s| >= 2 && s[0] == ' ' && s[|s| - 1] == ' '
    ensures |Trim(s)| <= |s| - 2
  {
    TrimSlice(s);
    if Trim(s) != [] {
      assert Trim(s)[|Trim(s)| - 1] == s[LeadingSpaces(s) + |Trim(s)| - 1];
    }
  }

  /** `addActiveClass` never inserts a duplicate: when the token is present
      nothing is appended, so the class name does not grow, and a class name
      without tabs, line breaks, form feeds or outer white space comes back
      unchanged. */
  lemma AddedNoDuplicate(className: string, a: string)
    requires className != "" && HasActiveClass(className, a)
    ensures |AddedClass(className, a)| <= |className|
    ensures (forall k :: 0 <= k < |className| ==> !IsClassSep(className[k])) &&
            !IsSpace(className[0]) && !IsSpace(className[|className| - 1]) ==>
              AddedClass(className, a) == className
  {
    var padded := " " + className + " ";
    var cur := Normalize(padded);
    assert AddedClass(className, a) == Trim(cur);
    TrimFramedShorter(cur);
    if forall k :: 0 <= k < |className| ==> !IsClassSep(className[k]) {
      assert forall k :: 0 <= k < |padded| ==> !IsClassSep(padded[k]);
      NormalizeNoSeps(padded);
      if !IsSpace(className[0]) && !IsSpace(className[|className| - 1]) {
        TrimPadded(className);
      }
    }
  }

  /** A trimmed string keeps the spacing of the string it was cut from. */
  lemma TrimKeepsSpacing(s: string)
    requires forall q :: 0 <= q < |s| ==> IsSpace(s[q]) ==> s[q] == ' '
    ensures PlainSpacing(Trim(s))
  {
    TrimSlice(s);
    var i := LeadingSpaces(s);
    var t := Trim(s);
    assert forall q :: 0 <= q < |t| ==> t[q] == s[i + q];
  }

  /** Both helpers keep plain spacing. */
  lemma HelpersKeepPlainSpacing(className: string, a: string)
    requires ValidToken(a) && PlainSpacing(className)
    ensures PlainSpacing(RemovedClass(className, a))
    ensures PlainSpacing(AddedClass(className, a))
  {
    if className != "" {
      var cur0 := Normalize(" " + className + " ");
      PlainSpacingFramed(className);
      StripAllFramed(cur0, Padded(a));
      TrimKeepsSpacing(StripAll(cur0, Padded(a)));
    }
    var cur', k := AddCursor(className, a);
    TrimKeepsSpacing(cur');
  }

  /** The characters of an occurrence of a padded token: a space at either
      end and the token's own characters, none of them whitespace, between. */
  lemma PaddedChars(s: string, a: string, k: int)
    requires ValidToken(a) && OccursAt(s, Padded(a), k)
    ensures s[k] == ' ' && s[k + |a| + 1] == ' '
    ensures forall m :: k < m <= k + |a| ==> !IsSpace(s[m])
    ensures s[k + 1..k + |a| + 1] == a
  {
    var p := Padded(a);
    assert s[k..k + |p|] == p;
    forall m | k < m <= k + |a|
      ensures s[m] == a[m - k - 1]
    {
      assert s[m] == s[k..k + |p|][m - k];
    }
    assert s[k] == s[k..k + |p|][0];
    assert s[k + |a| + 1] == s[k..k + |p|][|a| + 1];
  }

  /** Occurrences of two different padded tokens share at most a space. */
  lemma PaddedApart(s: string, a: string, b: string, k: int, q: int)
    requires ValidToken(a) && ValidToken(b) && a != b
    requires OccursAt(s, Padded(a), k) && OccursAt(s, Padded(b), q)
    ensures q + |b| + 1 <= k || k + |a| + 1 <= q
  {
    PaddedChars(s, a, k);
    PaddedChars(s, b, q);
  }

  /** An occurrence carried over to a string that holds the same characters
      `d` positions further on. */
  lemma OccursMoved(s: string, t: string, p: string, q: int, d: int)
    requires OccursAt(s, p, q) && 0 <= q + d && q + d + |p| <= |t|
    requires forall m :: q <= m < q + |p| ==> t[m + d] == s[m]
    ensures OccursAt(t, p, q + d)
  {
    forall i | 0 <= i < |p|
      ensures t[q + d..q + d + |p|][i] == p[i]
    {
      assert s[q + i] == s[q..q + |p|][i];
    }
  }

  /** Replacing one padded token by a space keeps every other padded token. */
  lemma ReplaceKeepsOther(cur: string, a: string, b: string)
    requires ValidToken(a) && ValidToken(b) && a != b && IndexOf(cur, Padded(a)) >= 0
    ensures IndexOf(ReplaceFirst(cur, Padded(a), " "), Padded(b)) >= 0 <==> IndexOf(cur, Padded(b)) >= 0
  {
    var k := IndexOf(cur, Padded(a));
    var r := ReplaceFirst(cur, Padded(a), " ");
    PaddedChars(cur, a, k);
    SpliceShape(cur, r, k, |a| + 2);
    SpliceKeeps(cur, r, a, b, k);
    SpliceAddsNone(cur, r, a, b, k);
  }

  /** The string left by replacing the `n` characters at `k` by one space. */
  lemma SpliceShape(cur: string, r: string, k: nat, n: nat)
    requires k + n <= |cur| && n >= 1 && cur[k] == ' ' && cur[k + n - 1] == ' '
    requires r == cur[..k] + " " + cur[k + n..]
    ensures |r| == |cur| - n + 1
    ensures forall m :: 0 <= m <= k ==> r[m] == cur[m]
    ensures forall m :: k <= m < |r| ==> r[m] == cur[m + n - 1]
  {
  }

  /** An occurrence ending by position `k` survives in a string that keeps
      every character up to `k`. */
  lemma OccursKeptBefore(cur: string, r: string, p: string, q: int, k: nat)
    requires OccursAt(cur, p, q) && q + |p| <= k + 1 && k < |r| && k < |cur|
    requires forall m :: 0 <= m <= k ==> r[m] == cur[m]
    ensures IndexOf(r, p) >= 0
  {
    OccursMoved(cur, r, p, q, 0);
    FoundWhereOccurs(r, p, q);
  }

  /** An occurrence starting `d` or more past position `k` survives, `d`
      positions earlier, in a string that keeps the characters after `k`
      shifted back by `d`. */
  lemma OccursKeptAfter(cur: string, r: string, p: string, q: int, k: nat, d: int)
    requires 0 <= d && OccursAt(cur, p, q) && k + d <= q && |r| == |cur| - d
    requires forall m :: k <= m < |r| ==> r[m] == cur[m + d]
    ensures IndexOf(r, p) >= 0
  {
    forall m: int | q <= m < q + |p|
      ensures r[m + -d] == cur[m]
    {
      assert k <= m - d < |r|;
    }
    OccursMoved(cur, r, p, q, -d);
    FoundWhereOccurs(r, p, q - d);
  }

  /** Every other padded token of `cur` is still in the spliced string. */
  lemma SpliceKeeps(cur: string, r: string, a: string, b: string, k: nat)
    requires ValidToken(a) && ValidToken(b) && a != b && OccursAt(cur, Padded(a), k)
    requires |r| == |cur| - |a| - 1
    requires forall m :: 0 <= m <= k ==> r[m] == cur[m]
    requires forall m :: k <= m < |r| ==> r[m] == cur[m + |a| + 1]
    ensures IndexOf(cur, Padded(b)) >= 0 ==> IndexOf(r, Padded(b)) >= 0
  {
    var pb := Padded(b);
    var q := IndexOf(cur, pb);
    if q >= 0 {
      PaddedApart(cur, a, b, k, q);
      if q + |b| + 1 <= k {
        OccursKeptBefore(cur, r, pb, q, k);
      } else {
        OccursKeptAfter(cur, r, pb, q, k, |a| + 1);
      }
    }
  }

  /** A padded token of the spliced string was already in `cur`. */
  lemma SpliceAddsNone(cur: string, r: string, a: string, b: string, k: nat)
    requires ValidToken(b) && k < |r| && r[k] == ' '
    requires |r| == |cur| - |a| - 1
    requires forall m :: 0 <= m <= k ==> r[m] == cur[m]
    requires forall m :: k <= m < |r| ==> r[m] == cur[m + |a| + 1]
    ensures IndexOf(r, Padded(b)) >= 0 ==> IndexOf(cur, Padded(b)) >= 0
  {
    var pb := Padded(b);
    var q := IndexOf(r, pb);
    if q >= 0 {
      PaddedChars(r, b, q);
      if q + |b| + 1 <= k {
        OccursMoved(r, cur, pb, q, 0);
        FoundWhereOccurs(cur, pb, q);
      } else {
        OccursMoved(r, cur, pb, q, |a| + 1);
        FoundWhereOccurs(cur, pb, q + |a| + 1);
      }
    }
  }

  /** The removal loop keeps every other padded token. */
  lemma {:induction false} StripKeepsOther(cur: string, a: string, b: string)
    requires ValidToken(a) && ValidToken(b) && a != b
    ensures IndexOf(StripAll(cur, Padded(a)), Padded(b)) >= 0 <==> IndexOf(cur, Padded(b)) >= 0
    decreases |cur|
  {
    if IndexOf(cur, Padded(a)) >= 0 {
      ReplaceKeepsOther(cur, a, b);
      StripKeepsOther(ReplaceFirst(cur, Padded(a), " "), a, b);
    }
  }

  /** Appending a padded token to a string that ends in a space keeps the
      other padded tokens and adds none. */
  lemma AppendKeepsOther(cur: string, a: string, b: string)
    requires ValidToken(a) && ValidToken(b) && a != b && |cur| >= 1 && cur[|cur| - 1] == ' '
    requires forall q :: 0 <= q < |cur| ==> !IsClassSep(cur[q])
    ensures IndexOf(cur + a + " ", Padded(b)) >= 0 <==> IndexOf(cur, Padded(b)) >= 0
  {
    var pb := Padded(b);
    var c := cur + a + " ";
    assert forall m :: 0 <= m < |cur| ==> c[m] == cur[m];
    var q := IndexOf(cur, pb);
    if q >= 0 {
      OccursMoved(cur, c, pb, q, 0);
      FoundWhereOccurs(c, pb, q);
    }
    AppendToken(cur, a);
    AppendAddsNone(cur, c, a, b);
  }

  /** A padded token of the extended string lies within `cur`. */
  lemma AppendAddsNone(cur: string, c: string, a: string, b: string)
    requires ValidToken(a) && ValidToken(b) && a != b && |cur| >= 1
    requires |c| == |cur| + |a| + 1 && OccursAt(c, Padded(a), |cur| - 1)
    requires forall m :: 0 <= m < |cur| ==> c[m] == cur[m]
    ensures IndexOf(c, Padded(b)) >= 0 ==> IndexOf(cur, Padded(b)) >= 0
  {
    var pb := Padded(b);
    var q := IndexOf(c, pb);
    if q >= 0 {
      PaddedApart(c, a, b, |cur| - 1, q);
      OccursMoved(c, cur, pb, q, 0);
      FoundWhereOccurs(cur, pb, q);
    }
  }

  /** Trimming a space-framed string and testing a token in it tests the
      token in the string itself. */
  lemma FramedTrimKeepsOther(cur: string, b: string)
    requires SpaceFramed(cur) && ValidToken(b)
    ensures HasActiveClass(Trim(cur), b) <==> IndexOf(cur, Padded(b)) >= 0
  {
    PadTrimNormalized(cur);
    var q := IndexOf(cur, Padded(b));
    if q >= 0 {
      TrimKeepsToken(cur, b, q);
    }
    FramedTrimAddsNone(cur, b);
  }

  /** A padded token in the re-padded trim of a space-framed string was in
      the string. */
  lemma {:induction false} FramedTrimAddsNone(cur: string, b: string)
    requires SpaceFramed(cur) && ValidToken(b)
    ensures IndexOf(" " + Trim(cur) + " ", Padded(b)) >= 0 ==> IndexOf(cur, Padded(b)) >= 0
  {
    var pb := Padded(b);
    var t := Trim(cur);
    var u := " " + t + " ";
    var q := IndexOf(u, pb);
    if q >= 0 {
      PadTrimIsSlice(cur);
      assert t != [];
      var i := LeadingSpaces(cur);
      SliceOccurrence(cur, u, pb, q, i - 1);
    }
  }

  /** An occurrence in a slice of `s` is an occurrence in `s`. */
  lemma SliceOccurrence(s: string, u: string, p: string, q: int, x: nat)
    requires x + |u| <= |s| && s[x..x + |u|] == u && OccursAt(u, p, q)
    ensures IndexOf(s, p) >= 0
  {
    forall m | q <= m < q + |p|
      ensures s[m + x] == u[m]
    {
      assert s[x..x + |u|][m] == u[m];
    }
    OccursMoved(u, s, p, q, x);
    FoundWhereOccurs(s, p, q + x);
  }

  /** `removeActiveClass` keeps every other class of the element, for a class
      name whose only whitespace is plain. */
  lemma RemovedKeepsOthers(className: string, a: string, b: string)
    requires PlainSpacing(className) && ValidToken(a) && ValidToken(b) && b != a
    ensures HasActiveClass(RemovedClass(className, a), b) == HasActiveClass(className, b)
  {
    if className != "" {
      var cur0 := Normalize(" " + className + " ");
      PlainSpacingFramed(className);
      StripAllFramed(cur0, Padded(a));
      StripKeepsOther(cur0, a, b);
      FramedTrimKeepsOther(StripAll(cur0, Padded(a)), b);
    }
  }

  /** `addActiveClass` keeps every other class of the element and adds none,
      for a class name whose only whitespace is plain. */
  lemma AddedKeepsOthers(className: string, a: string, b: string)
    requires PlainSpacing(className) && ValidToken(a) && ValidToken(b) && b != a
    ensures HasActiveClass(AddedClass(className, a), b) == HasActiveClass(className, b)
  {
    var cur := AddBase(className);
    assert HasActiveClass(className, b) <==> IndexOf(cur, Padded(b)) >= 0;
    if className != "" {
      PlainSpacingFramed(className);
    }
    assert SpaceFramed(cur);
    if IndexOf(cur, Padded(a)) < 0 {
      AppendToken(cur, a);
      AppendKeepsOther(cur, a, b);
      assert SpaceFramed(cur + a + " ");
      FramedTrimKeepsOther(cur + a + " ", b);
    } else {
      FramedTrimKeepsOther(cur, b);
    }
  }

  /** Without plain spacing the removal can expose the token: the class name
      " active" does not have the class "active" (U+00A0 is not
      normalised to a space), but `trim` cuts the U+00A0 and leaves "active". */
  lemma RemoveCanExposeToken()
    ensures !HasActiveClass("\U{A0}active", "active")
    ensures RemovedClass("\U{A0}active", "active") == "active"
    ensures HasActiveClass("active", "active")
  {
    ExposedCase(" \U{A0}active ", "\U{A0}active", "active");
  }

  /** Without plain spacing the removal can expose another class too: the
      class name " b" does not have the class "b" (the first character is
      U+00A0), but removing "x" trims the U+00A0 and leaves "b". */
  lemma RemoveCanExposeOther()
    ensures !HasActiveClass("\U{A0}b", "b")
    ensures RemovedClass("\U{A0}b", "x") == "b"
    ensures HasActiveClass("b", "b")
  {
    OtherExposedCase(" \U{A0}b ", "\U{A0}b", "b", "x");
  }

  /** The second counterexample, with its strings passed in. */
  lemma OtherExposedCase(cur: string, c: string, b: string, x: string)
    requires c == "\U{A0}b" && b == "b" && x == "x" && cur == " \U{A0}b "
    ensures !HasActiveClass(c, b)
    ensures RemovedClass(c, x) == b
    ensures HasActiveClass(b, b)
  {
    assert " " + c + " " == cur;
    NormalizeNoSeps(cur);
    OtherNotFound(cur, Padded(b));
    OtherNotFound(cur, Padded(x));
    OtherTrim(cur);
    TokenPadded(b);
  }

  /** No padded one-character token occurs in " \u00A0b ". */
  lemma OtherNotFound(cur: string, p: string)
    requires cur == " \U{A0}b " && |p| == 3 && p[0] == ' ' && p[2] == ' '
    ensures IndexOf(cur, p) < 0
  {
    assert |cur| == 4 && cur[2] != ' ';
    assert !OccursAt(cur, p, 0) && !OccursAt(cur, p, 1);
    assert forall k :: !OccursAt(cur, p, k);
  }

  /** `trim` cuts the space and U+00A0 in front and the space behind. */
  lemma OtherTrim(cur: string)
    requires cur == " \U{A0}b "
    ensures Trim(cur) == "b"
  {
    assert cur[1..][1..] == cur[2..];
    assert LeadingSpaces(cur[2..]) == 0;
    assert LeadingSpaces(cur[1..]) == 1;
    assert LeadingSpaces(cur) == 2;
    var t := cur[2..];
    assert t == "b " && t[..|t| - 1] == "b";
    assert TrailingSpaces(t[..|t| - 1]) == 0;
    assert TrailingSpaces(t) == 1;
  }

  /** The counterexample, with its strings passed in. */
  lemma ExposedCase(cur: string, c: string, a: string)
    requires c == "\U{A0}active" && a == "active" && cur == " \U{A0}active "
    ensures !HasActiveClass(c, a)
    ensures RemovedClass(c, a) == a
    ensures HasActiveClass(a, a)
  {
    ExposedPadded(cur, c);
    ExposedNotFound(cur, Padded(a));
    ExposedTrim(cur);
    ActiveToken(a);
    RemovalExposes(cur, c, a);
  }

  /** "active" is a single token. */
  lemma ActiveToken(a: string)
    requires a == "active"
    ensures ValidToken(a)
  {
  }

  /** A class name without the padded token whose padded form trims to the
      token: removal leaves the token, which is then found. */
  lemma RemovalExposes(cur: string, c: string, a: string)
    requires c != "" && ValidToken(a)
    requires Normalize(" " + c + " ") == cur && IndexOf(cur, Padded(a)) < 0 && Trim(cur) == a
    ensures !HasActiveClass(c, a)
    ensures RemovedClass(c, a) == a
    ensures HasActiveClass(a, a)
  {
    TokenPadded(a);
  }

  /** Padding and normalising the counterexample gives " \U{A0}active ". */
  lemma ExposedPadded(cur: string, c: string)
    requires c == "\U{A0}active" && cur == " \U{A0}active "
    ensures Normalize(" " + c + " ") == cur
  {
    assert " " + c + " " == cur;
    NormalizeNoSeps(cur);
  }

  /** A token is found in its own padded form. */
  lemma TokenPadded(a: string)
    requires ValidToken(a)
    ensures HasActiveClass(a, a)
  {
    var u := " " + a + " ";
    assert forall k :: 0 <= k < |u| ==> !IsClassSep(u[k]) by {
      forall k | 0 <= k < |u|
        ensures !IsClassSep(u[k])
      {
        if 0 < k < |u| - 1 {
          assert u[k] == a[k - 1];
        }
      }
    }
    NormalizeNoSeps(u);
    assert OccursAt(u, Padded(a), 0);
    FoundWhereOccurs(u, Padded(a), 0);
  }

  /** The padded token does not occur in " \U{A0}active ". */
  lemma ExposedNotFound(cur: string, p: string)
    requires cur == " \U{A0}active " && p == Padded("active")
    ensures IndexOf(cur, p) < 0
  {
    assert |cur| == 9 && |p| == 8;
    assert cur[1] != p[1];
    assert cur[1] != p[0];
    assert forall k :: !OccursAt(cur, p, k);
  }

  /** `trim` cuts the space and U+00A0 in front and the space behind. */
  lemma ExposedTrim(cur: string)
    requires cur == " \U{A0}active "
    ensures Trim(cur) == "active"
  {
    assert cur[1..][1..] == cur[2..];
    assert cur[2..][0] == 'a';
    assert LeadingSpaces(cur[2..]) == 0;
    assert LeadingSpaces(cur[1..]) == 1;
    assert LeadingSpaces(cur) == 2;
    var t := cur[2..];
    assert t == "active ";
    assert t[..|t| - 1] == "active";
    assert TrailingSpaces(t[..|t| - 1]) == 0;
    assert TrailingSpaces(t) == 1;
  }
}
