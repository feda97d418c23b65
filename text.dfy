/**
 * The few `str` methods the scripts rely on: `isspace` (also the `\s` class of
 * Python's `re` module), `strip`, `lower` and `title`.
 *
 * Case mapping covers ASCII and the Latin-1 letters whose upper and lower
 * forms differ by 32 code points (enough for Spanish: á, é, í, ó, ú, ñ, ü);
 * every other character is treated as uncased.
 */
module Text {

  /** Python's `str.isspace()`, which is also what `\s` matches in a `str` pattern. */
  predicate IsSpace(c: char) {
    ('\U{9}' <= c <= '\U{D}') || ('\U{1C}' <= c <= ' ') || c == '\U{85}' || c == '\U{A0}'
    || c == '\U{1680}' || ('\U{2000}' <= c <= '\U{200A}') || c == '\U{2028}' || c == '\U{2029}'
    || c == '\U{202F}' || c == '\U{205F}' || c == '\U{3000}'
  }

  predicate IsDigit(c: char) { '0' <= c <= '9' }

  /** Upper-case letters of the model: A-Z and À-Þ without ×. */
  predicate IsUpper(c: char) {
    ('A' <= c <= 'Z') || ('À' <= c <= 'Þ' && c != '×')
  }

  /** Lower-case letters of the model: a-z and à-þ without ÷. */
  predicate IsLower(c: char) {
    ('a' <= c <= 'z') || ('à' <= c <= 'þ' && c != '÷')
  }

  predicate IsCased(c: char) { IsUpper(c) || IsLower(c) }

  function ToLower(c: char): (r: char)
    ensures IsCased(r) == IsCased(c) && !IsUpper(r)
    ensures IsLower(c) ==> r == c
  {
    if IsUpper(c) then (c as int + 32) as char else c
  }

  function ToUpper(c: char): (r: char)
    ensures IsCased(r) == IsCased(c) && !IsLower(r)
    ensures ToLower(r) == ToLower(c)
  {
    if IsLower(c) then (c as int - 32) as char else c
  }

  /** `str.lower()` */
  function Lower(s: string): (r: string)
    ensures |r| == |s|
    ensures forall i :: 0 <= i < |s| ==> r[i] == ToLower(s[i])
  {
    if s == [] then [] else [ToLower(s[0])] + Lower(s[1..])
  }

  /**
   * `str.title()`: a cased character that follows a cased character is
   * lowered, any other one is raised; uncased characters are kept.
   */
  function TitleFrom(s: string, previousCased: bool): (r: string)
    ensures |r| == |s|
  {
    if s == [] then []
    else [if previousCased then ToLower(s[0]) else ToUpper(s[0])] + TitleFrom(s[1..], IsCased(s[0]))
  }

  function Title(s: string): (r: string)
    ensures |r| == |s|
  {
    TitleFrom(s, false)
  }

  /** Length of the leading run of whitespace. */
  function LeadingSpaces(s: string): (n: nat)
    ensures n <= |s|
    ensures forall i :: 0 <= i < n ==> IsSpace(s[i])
    ensures n < |s| ==> !IsSpace(s[n])
  {
    if s == [] || !IsSpace(s[0]) then 0 else 1 + LeadingSpaces(s[1..])
  }

  /** Length of the trailing run of whitespace. */
  function TrailingSpaces(s: string): (n: nat)
    ensures n <= |s|
    ensures forall i :: |s| - n <= i < |s| ==> IsSpace(s[i])
    ensures n < |s| ==> !IsSpace(s[|s| - 1 - n])
  {
    if s == [] || !IsSpace(s[|s| - 1]) then 0 else 1 + TrailingSpaces(s[..|s| - 1])
  }

  /** `str.strip()` with no argument. */
  function Strip(s: string): (r: string)
    ensures |r| > 0 ==> !IsSpace(r[0]) && !IsSpace(r[|r| - 1])
  {
    var t := s[LeadingSpaces(s)..];
    t[..|t| - TrailingSpaces(t)]
  }

  /** `strip` removes only whitespace, and only from the two ends. */
  lemma StripPieces(s: string) returns (head: string, tail: string)
    ensures s == head + Strip(s) + tail
    ensures forall i :: 0 <= i < |head| ==> IsSpace(head[i])
    ensures forall i :: 0 <= i < |tail| ==> IsSpace(tail[i])
  {
    var t := s[LeadingSpaces(s)..];
    head := LeadingPiece(s);
    tail := TrailingPiece(t);
    Regroup(s, head, t, Strip(s), tail);
  }

  lemma LeadingPiece(s: string) returns (head: string)
    ensures s == head + s[LeadingSpaces(s)..]
    ensures forall i :: 0 <= i < |head| ==> IsSpace(head[i])
  {
    head := s[..LeadingSpaces(s)];
  }

  lemma Regroup(s: string, head: string, t: string, mid: string, tail: string)
    requires s == head + t && t == mid + tail
    ensures s == head + mid + tail
  {
  }

  lemma TrailingPiece(t: string) returns (tail: string)
    ensures t == t[..|t| - TrailingSpaces(t)] + tail
    ensures forall i :: 0 <= i < |tail| ==> IsSpace(tail[i])
  {
    var trail := TrailingSpaces(t);
    tail := t[|t| - trail..];
    forall i | 0 <= i < |tail| ensures IsSpace(tail[i]) {
      assert tail[i] == t[|t| - trail + i];
    }
  }

  predicate Trimmed(s: string) {
    |s| > 0 ==> !IsSpace(s[0]) && !IsSpace(s[|s| - 1])
  }

  /** Stripping text without surrounding whitespace changes nothing; so `strip` is idempotent. */
  lemma StripTrimmed(s: string)
    requires Trimmed(s)
    ensures Strip(s) == s
  {
    if |s| > 0 {
      assert LeadingSpaces(s) == 0;
      assert s[0..] == s;
      assert TrailingSpaces(s) == 0;
    }
  }

  /** Lowering keeps every character's whitespace class, so trimmed text stays trimmed. */
  lemma LowerTrimmed(s: string)
    requires Trimmed(s)
    ensures Trimmed(Lower(s))
  {
  }

  lemma {:induction false} TitleFromAt(s: string, previousCased: bool, i: nat)
    requires i < |s|
    ensures TitleFrom(s, previousCased)[i] ==
      if (if i == 0 then previousCased else IsCased(s[i - 1])) then ToLower(s[i]) else ToUpper(s[i])
  {
    if i > 0 {
      TitleFromAt(s[1..], IsCased(s[0]), i - 1);
    }
  }

  /**
   * `title` changes only the case of letters: each character keeps its
   * case-folded form, and so its whitespace class.
   */
  lemma TitleAt(s: string, i: nat)
    requires i < |s|
    ensures ToLower(Title(s)[i]) == ToLower(s[i])
    ensures IsSpace(Title(s)[i]) == IsSpace(s[i])
  {
    TitleFromAt(s, false, i);
  }

  /** Lowering a title-cased text gives the lowered original. */
  lemma LowerTitle(s: string)
    ensures Lower(Title(s)) == Lower(s)
  {
    forall i | 0 <= i < |s| ensures Lower(Title(s))[i] == Lower(s)[i] {
      TitleAt(s, i);
    }
  }

  /** `title` only looks at the case-folded text: lowering first changes nothing. */
  lemma TitleLower(s: string)
    ensures Title(Lower(s)) == Title(s)
  {
    forall i | 0 <= i < |s| ensures Title(Lower(s))[i] == Title(s)[i] {
      TitleFromAt(Lower(s), false, i);
      TitleFromAt(s, false, i);
    }
  }

  /** Title-casing keeps text trimmed. */
  lemma TitleTrimmed(s: string)
    requires Trimmed(s)
    ensures Trimmed(Title(s))
  {
    if |s| > 0 {
      TitleAt(s, 0);
      TitleAt(s, |s| - 1);
    }
  }

  lemma LowerCons(c: char, s: string)
    ensures Lower([c] + s) == [ToLower(c)] + Lower(s)
  {
    assert ([c] + s)[1..] == s;
  }

  /** Lowering changes nothing in text without upper-case letters; so `lower` is idempotent. */
  lemma {:induction false} LowerFixed(s: string)
    requires forall c :: c in s ==> !IsUpper(c)
    ensures Lower(s) == s
  {
    if s != [] {
      assert s[0] in s;
      assert forall c :: c in s[1..] ==> c in s;
      LowerFixed(s[1..]);
      LowerCons(s[0], s[1..]);
      assert s == [s[0]] + s[1..];
    }
  }

  lemma LowerLower(s: string)
    ensures Lower(Lower(s)) == Lower(s)
  {
    LowerFixed(Lower(s));
  }

  lemma TitleCons(c: char, s: string, previousCased: bool)
    ensures TitleFrom([c] + s, previousCased)
      == [if previousCased then ToLower(c) else ToUpper(c)] + TitleFrom(s, IsCased(c))
  {
    assert ([c] + s)[1..] == s;
  }

  /** Whether the character before what follows `a` is cased. */
  function CasedAfter(a: string, previousCased: bool): bool {
    if a == [] then previousCased else IsCased(a[|a| - 1])
  }

  lemma CasedAfterCons(c: char, s: string, previousCased: bool)
    ensures CasedAfter([c] + s, previousCased) == CasedAfter(s, IsCased(c))
  {
    if s != [] {
      assert ([c] + s)[|s|] == s[|s| - 1];
    }
  }

  lemma Associative(x: string, y: string, z: string)
    ensures x + (y + z) == (x + y) + z
  {
  }

  /** Title-casing works piece by piece, each piece seeing the character before it. */
  lemma {:induction false} TitleAppend(a: string, b: string, previousCased: bool)
    ensures TitleFrom(a + b, previousCased)
      == TitleFrom(a, previousCased) + TitleFrom(b, CasedAfter(a, previousCased))
  {
    if a == [] {
      assert a + b == b;
    } else {
      var c, t := a[0], a[1..];
      assert a == [c] + t;
      TitleAppend(t, b, IsCased(c));
      assert a + b == [c] + (t + b);
      TitleCons(c, t + b, previousCased);
      TitleCons(c, t, previousCased);
      CasedAfterCons(c, t, previousCased);
      var x := [if previousCased then ToLower(c) else ToUpper(c)];
      Associative(x, TitleFrom(t, IsCased(c)), TitleFrom(b, CasedAfter(t, IsCased(c))));
    }
  }

  lemma {:induction false} TitleLowerRun(s: string)
    requires forall c :: c in s ==> IsLower(c)
    ensures TitleFrom(s, true) == s
  {
    if s != [] {
      assert s[0] in s;
      assert forall c :: c in s[1..] ==> c in s;
      TitleLowerRun(s[1..]);
      TitleCons(s[0], s[1..], true);
      assert s == [s[0]] + s[1..];
    }
  }

  /** A lower-case word is title-cased by raising its first letter. */
  lemma TitleWord(w: string)
    requires w != [] && forall c :: c in w ==> IsLower(c)
    ensures Title(w) == [ToUpper(w[0])] + w[1..]
    ensures CasedAfter(w, false)
  {
    assert w[0] in w;
    assert forall c :: c in w[1..] ==> c in w;
    TitleLowerRun(w[1..]);
    assert w == [w[0]] + w[1..];
    TitleCons(w[0], w[1..], false);
    assert w[|w| - 1] in w;
  }
}
