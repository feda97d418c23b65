/**
 * The text repair applied to the `st_asgeojson` column before decoding it:
 * doubled quotes are collapsed and bare object keys are put in quotes.
 *
 * Two versions exist. The registry analysis collapses, quotes keys after
 * `{` or `,` (capturing the opener), collapses again and quotes keys after
 * `{`, `[` or `,` (with a look-behind). The green-space analysis collapses
 * once and quotes keys after `{` or `,` only.
 */
module GeometryText {
  import opened Text
  import opened Tables

  // ---------------------------------------------------------------------
  // str.replace('""', '"')

  predicate NotQuote(c: char) { c != '"' }

  /** Whether two quotes stand side by side somewhere in `s`. */
  predicate NoDoubledQuote(s: string) {
    forall i :: 0 <= i < |s| - 1 ==> !(s[i] == '"' && s[i + 1] == '"')
  }

  /** Left-to-right, non-overlapping replacement of `""` by `"`. */
  function CollapseQuotes(s: string): (r: string)
    ensures |r| <= |s|
  {
    if |s| >= 2 && s[0] == '"' && s[1] == '"' then "\"" + CollapseQuotes(s[2..])
    else if s == [] then ""
    else [s[0]] + CollapseQuotes(s[1..])
  }

  /** Only quotes are removed; every other character keeps its place in the order. */
  lemma {:induction false} CollapseQuotesKeepsText(s: string)
    ensures Filter(CollapseQuotes(s), NotQuote) == Filter(s, NotQuote)
  {
    if |s| >= 2 && s[0] == '"' && s[1] == '"' {
      CollapseQuotesKeepsText(s[2..]);
      var x := CollapseQuotes(s[2..]);
      assert ("\"" + x)[0] == '"' && ("\"" + x)[1..] == x;
      assert Filter("\"" + x, NotQuote) == Filter(x, NotQuote);
      assert s[1..][1..] == s[2..];
      assert Filter(s[1..], NotQuote) == Filter(s[2..], NotQuote);
    } else if s != [] {
      CollapseQuotesKeepsText(s[1..]);
      var x := CollapseQuotes(s[1..]);
      assert ([s[0]] + x)[0] == s[0] && ([s[0]] + x)[1..] == x;
    }
  }

  lemma {:induction false} CollapseQuotesShrinks(s: string)
    requires !NoDoubledQuote(s)
    ensures |CollapseQuotes(s)| < |s|
  {
    if !(|s| >= 2 && s[0] == '"' && s[1] == '"') {
      var i :| 0 <= i < |s| - 1 && s[i] == '"' && s[i + 1] == '"';
      assert s[1..][i - 1] == s[i] && s[1..][i] == s[i + 1];
      CollapseQuotesShrinks(s[1..]);
    }
  }

  /** The replacement changes the text exactly when it holds a doubled quote. */
  lemma {:induction false} CollapseQuotesUnchanged(s: string)
    ensures CollapseQuotes(s) == s <==> NoDoubledQuote(s)
  {
    if NoDoubledQuote(s) {
      if s != [] {
        assert NoDoubledQuote(s[1..]) by {
          forall i | 0 <= i < |s| - 2 ensures !(s[1..][i] == '"' && s[1..][i + 1] == '"') {
            assert s[1..][i] == s[i + 1] && s[1..][i + 1] == s[i + 2];
          }
        }
        CollapseQuotesUnchanged(s[1..]);
        assert s == [s[0]] + s[1..];
      }
    } else {
      CollapseQuotesShrinks(s);
    }
  }

  /** Three quotes become two: one pass can leave a doubled quote behind. */
  lemma CollapseQuotesThree()
    ensures CollapseQuotes("\"\"\"") == "\"\""
    ensures CollapseQuotes("\"\"") == "\""
  {
  }

  // ---------------------------------------------------------------------
  // The bare-key pattern `\s*[A-Za-z0-9]+:`

  /** `[A-Za-z0-9]`: ASCII letters and digits only, as written in the pattern. */
  predicate IsAlnum(c: char) {
    ('A' <= c <= 'Z') || ('a' <= c <= 'z') || ('0' <= c <= '9')
  }

  /** `[A-Za-z0-9]*:` matches at the start of `t`. */
  predicate KeyRest(t: string) {
    |t| > 0 && (t[0] == ':' || (IsAlnum(t[0]) && KeyRest(t[1..])))
  }

  /** `\s*[A-Za-z0-9]+:` matches at the start of `t`. */
  predicate BareKeyAt(t: string) {
    |t| > 0 && ((IsSpace(t[0]) && BareKeyAt(t[1..])) || (IsAlnum(t[0]) && KeyRest(t[1..])))
  }

  function ColonAt(t: string): (n: nat)
    requires KeyRest(t)
    ensures n < |t| && t[n] == ':'
    ensures forall i :: 0 <= i < n ==> IsAlnum(t[i])
  {
    if t[0] == ':' then 0 else 1 + ColonAt(t[1..])
  }

  /** Where the match ends: the position of its colon; the key lies between the spaces and it. */
  function MatchEnd(t: string): (n: nat)
    requires BareKeyAt(t)
    ensures LeadingSpaces(t) < n < |t| && t[n] == ':'
    ensures forall i :: LeadingSpaces(t) <= i < n ==> IsAlnum(t[i])
  {
    if IsSpace(t[0]) then 1 + MatchEnd(t[1..]) else 1 + ColonAt(t[1..])
  }

  /** The replacement text of a match, `"key":`, with the spaces dropped. */
  function QuotedKey(t: string): (q: string)
    requires BareKeyAt(t)
    ensures |q| > 3 && q[0] == '"' && q[|q| - 2] == '"' && q[|q| - 1] == ':'
    ensures forall i :: 1 <= i < |q| - 2 ==> IsAlnum(q[i])
  {
    "\"" + t[LeadingSpaces(t)..MatchEnd(t)] + "\":"
  }

  // ---------------------------------------------------------------------
  // The two substitutions

  const CaptureOpeners: set<char> := {'{', ','}
  const LookbehindOpeners: set<char> := {'{', '[', ','}

  /**
   * `re.sub(r'([{,])\s*([A-Za-z0-9]+):', r'\1"\2":', s)`: scanning left to
   * right, an opener followed by a bare key becomes the opener and the
   * quoted key; scanning resumes after the colon.
   */
  function QuoteKeysCapturing(s: string): string
    decreases |s|
  {
    if s == [] then ""
    else if s[0] in CaptureOpeners && BareKeyAt(s[1..]) then
      var t := s[1..];
      [s[0]] + QuotedKey(t) + QuoteKeysCapturing(t[MatchEnd(t) + 1..])
    else [s[0]] + QuoteKeysCapturing(s[1..])
  }

  /**
   * `re.sub(r'(?<=[...])\s*([A-Za-z0-9]+):', r'"\1":', s)` for the opener
   * class `openers`. The look-behind reads the original text, so the scan
   * carries whether the character before the current position is an opener.
   */
  function QuoteKeysAfter(s: string, openers: set<char>, afterOpener: bool): string
    decreases |s|
  {
    if s == [] then ""
    else if afterOpener && BareKeyAt(s) then
      QuotedKey(s) + QuoteKeysAfter(s[MatchEnd(s) + 1..], openers, false)
    else [s[0]] + QuoteKeysAfter(s[1..], openers, s[0] in openers)
  }

  lemma QuoteKeysAfterNoMatch(t: string, openers: set<char>)
    requires !BareKeyAt(t)
    ensures QuoteKeysAfter(t, openers, true) == QuoteKeysAfter(t, openers, false)
  {
  }

  /** The capturing form is the look-behind form over the openers `{` and `,`. */
  lemma {:induction false} CapturingIsLookbehind(s: string)
    ensures QuoteKeysCapturing(s) == QuoteKeysAfter(s, CaptureOpeners, false)
    decreases |s|
  {
    if s != [] {
      var t := s[1..];
      assert QuoteKeysAfter(s, CaptureOpeners, false) == [s[0]] + QuoteKeysAfter(t, CaptureOpeners, s[0] in CaptureOpeners);
      if s[0] in CaptureOpeners && BareKeyAt(t) {
        var u := t[MatchEnd(t) + 1..];
        CapturingIsLookbehind(u);
        assert QuoteKeysAfter(t, CaptureOpeners, true) == QuotedKey(t) + QuoteKeysAfter(u, CaptureOpeners, false);
        assert QuoteKeysCapturing(s) == [s[0]] + QuotedKey(t) + QuoteKeysCapturing(u);
      } else {
        CapturingIsLookbehind(t);
        assert QuoteKeysCapturing(s) == [s[0]] + QuoteKeysCapturing(t);
        if s[0] in CaptureOpeners {
          QuoteKeysAfterNoMatch(t, CaptureOpeners);
        }
      }
    }
  }

  // ---------------------------------------------------------------------
  // What the substitutions do to a key

  predicate AllAlnum(key: string) {
    forall i :: 0 <= i < |key| ==> IsAlnum(key[i])
  }

  lemma {:induction false} KeyRestOf(key: string, rest: string)
    requires AllAlnum(key)
    ensures KeyRest(key + ":" + rest) && ColonAt(key + ":" + rest) == |key|
  {
    if key != [] {
      assert (key + ":" + rest)[1..] == key[1..] + ":" + rest;
      KeyRestOf(key[1..], rest);
    }
  }

  /** An alphanumeric key followed by a colon is a bare key, quoted as `"key":`. */
  lemma KeyMatch(key: string, rest: string)
    requires key != [] && AllAlnum(key)
    ensures BareKeyAt(key + ":" + rest)
    ensures QuotedKey(key + ":" + rest) == "\"" + key + "\":"
    ensures (key + ":" + rest)[MatchEnd(key + ":" + rest) + 1..] == rest
  {
    var t := key + ":" + rest;
    assert t[1..] == key[1..] + ":" + rest;
    KeyRestOf(key[1..], rest);
    assert !IsSpace(t[0]);
    assert LeadingSpaces(t) == 0;
    assert MatchEnd(t) == |key|;
    assert t[..|key|] == key;
  }

  /** After an opener, a bare key is put in quotes and the scan goes on after its colon. */
  lemma QuoteKeysAfterKey(o: char, key: string, rest: string, openers: set<char>)
    requires o in openers && key != [] && AllAlnum(key)
    ensures QuoteKeysAfter([o] + key + ":" + rest, openers, false)
      == [o] + "\"" + key + "\":" + QuoteKeysAfter(rest, openers, false)
  {
    var s := [o] + key + ":" + rest;
    var t := key + ":" + rest;
    assert s[0] == o && s[1..] == t;
    KeyMatch(key, rest);
    assert QuoteKeysAfter(s, openers, false) == [o] + QuoteKeysAfter(t, openers, true);
    assert QuoteKeysAfter(t, openers, true) == QuotedKey(t) + QuoteKeysAfter(t[MatchEnd(t) + 1..], openers, false);
  }

  lemma QuoteKeysCapturingKey(o: char, key: string, rest: string)
    requires o in CaptureOpeners && key != [] && AllAlnum(key)
    ensures QuoteKeysCapturing([o] + key + ":" + rest) == [o] + "\"" + key + "\":" + QuoteKeysCapturing(rest)
  {
    var s := [o] + key + ":" + rest;
    var t := key + ":" + rest;
    assert s[0] == o && s[1..] == t;
    KeyMatch(key, rest);
    assert QuoteKeysCapturing(s) == [o] + QuotedKey(t) + QuoteKeysCapturing(t[MatchEnd(t) + 1..]);
  }

  /** Text without openers is copied as it is. */
  lemma {:induction false} QuoteKeysAfterCopies(p: string, rest: string, openers: set<char>)
    requires p != [] && forall i :: 0 <= i < |p| ==> p[i] !in openers
    ensures QuoteKeysAfter(p + rest, openers, false) == p + QuoteKeysAfter(rest, openers, false)
  {
    assert (p + rest)[1..] == p[1..] + rest;
    if |p| > 1 {
      QuoteKeysAfterCopies(p[1..], rest, openers);
    }
  }

  lemma {:induction false} QuoteKeysCapturingCopies(p: string, rest: string)
    requires forall i :: 0 <= i < |p| ==> p[i] !in CaptureOpeners
    ensures QuoteKeysCapturing(p + rest) == p + QuoteKeysCapturing(rest)
  {
    if p == [] {
      assert p + rest == rest;
    } else {
      assert (p + rest)[1..] == p[1..] + rest;
      QuoteKeysCapturingCopies(p[1..], rest);
    }
  }

  // ---------------------------------------------------------------------
  // Text without bare keys

  /** No opener in `s` is followed by a bare key. */
  predicate NoBareKey(s: string, openers: set<char>) {
    forall i :: 0 <= i < |s| && s[i] in openers ==> !BareKeyAt(s[i + 1..])
  }

  /** Openers are punctuation: not whitespace, not alphanumeric, not a quote or a colon. */
  predicate Punctuation(openers: set<char>) {
    forall c :: c in openers ==> !IsSpace(c) && !IsAlnum(c) && c != '"' && c != ':'
  }

  lemma OpenersArePunctuation()
    ensures Punctuation(CaptureOpeners) && Punctuation(LookbehindOpeners)
  {
  }

  lemma NoBareKeyCons(c: char, t: string, openers: set<char>)
    requires NoBareKey(t, openers)
    requires c in openers ==> !BareKeyAt(t)
    ensures NoBareKey([c] + t, openers)
  {
    var s := [c] + t;
    forall i | 0 <= i < |s| && s[i] in openers ensures !BareKeyAt(s[i + 1..]) {
      if i == 0 {
        assert s[1..] == t;
      } else {
        assert s[i] == t[i - 1] && s[i + 1..] == t[i..];
      }
    }
  }

  lemma NoBareKeyTail(c: char, t: string, openers: set<char>)
    requires NoBareKey([c] + t, openers)
    ensures NoBareKey(t, openers)
    ensures c in openers ==> !BareKeyAt(t)
  {
    var s := [c] + t;
    if c in openers {
      assert s[0] in openers && s[1..] == t;
    }
    forall i | 0 <= i < |t| && t[i] in openers ensures !BareKeyAt(t[i + 1..]) {
      assert s[i + 1] == t[i] && s[i + 1] in openers;
      assert s[i + 2..] == t[i + 1..];
    }
  }

  lemma NoBareKeyQuoted(t: string, rest: string, openers: set<char>)
    requires BareKeyAt(t) && Punctuation(openers)
    requires NoBareKey(rest, openers)
    ensures NoBareKey(QuotedKey(t) + rest, openers)
  {
    var q := QuotedKey(t);
    var s := q + rest;
    assert forall j :: 0 <= j < |q| ==> q[j] !in openers;
    forall i | 0 <= i < |s| && s[i] in openers ensures !BareKeyAt(s[i + 1..]) {
      if i >= |q| {
        assert s[i] == rest[i - |q|] && s[i + 1..] == rest[i - |q| + 1..];
      }
    }
  }

  /** With no bare key to quote, the substitution changes nothing. */
  lemma {:induction false} QuoteKeysAfterUnchanged(s: string, openers: set<char>, afterOpener: bool)
    requires NoBareKey(s, openers)
    requires afterOpener ==> !BareKeyAt(s)
    ensures QuoteKeysAfter(s, openers, afterOpener) == s
    decreases |s|
  {
    if s != [] {
      assert s == [s[0]] + s[1..];
      NoBareKeyTail(s[0], s[1..], openers);
      QuoteKeysAfterUnchanged(s[1..], openers, s[0] in openers);
    }
  }

  /** The substitution copies text up to the first opener and the character after it. */
  lemma {:induction false} QuoteKeysAfterPrefix(t: string, openers: set<char>, afterOpener: bool, k: nat)
    requires 0 < k <= |t|
    requires forall j :: 0 <= j < k - 1 ==> t[j] !in openers
    requires afterOpener ==> !BareKeyAt(t)
    ensures |QuoteKeysAfter(t, openers, afterOpener)| >= k
    ensures QuoteKeysAfter(t, openers, afterOpener)[..k] == t[..k]
  {
    var rest := QuoteKeysAfter(t[1..], openers, t[0] in openers);
    assert QuoteKeysAfter(t, openers, afterOpener) == [t[0]] + rest;
    if k > 1 {
      QuoteKeysAfterPrefix(t[1..], openers, false, k - 1);
      assert t[..k] == [t[0]] + t[1..][..k - 1];
    }
  }

  /** Characters that can be part of a bare key before its colon. */
  predicate InKey(c: char) { IsSpace(c) || IsAlnum(c) }

  /** Whether a bare key starts a text depends only on its key characters and the one after them. */
  lemma {:induction false} BareKeyPrefix(t: string, u: string, k: nat)
    requires k < |t| && k < |u| && t[..k + 1] == u[..k + 1]
    requires forall j :: 0 <= j < k ==> InKey(t[j])
    requires !InKey(t[k])
    ensures BareKeyAt(t) == BareKeyAt(u)
    ensures KeyRest(t) == KeyRest(u)
  {
    assert t[0] == u[0];
    if k > 0 {
      assert t[1..][..k] == u[1..][..k];
      BareKeyPrefix(t[1..], u[1..], k - 1);
    }
  }

  /** A text made only of key characters holds no complete bare key. */
  lemma {:induction false} BareKeyNeedsStop(t: string)
    requires forall j :: 0 <= j < |t| ==> InKey(t[j])
    ensures !BareKeyAt(t) && !KeyRest(t)
  {
    if t != [] {
      BareKeyNeedsStop(t[1..]);
    }
  }

  /** Right after an opener the substitution never leaves a bare key. */
  lemma QuoteKeysAfterOpener(t: string, openers: set<char>)
    requires Punctuation(openers)
    ensures !BareKeyAt(QuoteKeysAfter(t, openers, true))
  {
    var out := QuoteKeysAfter(t, openers, true);
    if BareKeyAt(t) {
      assert out[0] == '"';
    } else if forall j :: 0 <= j < |t| ==> InKey(t[j]) {
      QuoteKeysAfterUnchanged(t, openers, true);
      BareKeyNeedsStop(out);
    } else {
      var k := FirstStop(t);
      QuoteKeysAfterPrefix(t, openers, true, k + 1);
      assert out[..k + 1] == t[..k + 1];
      BareKeyPrefix(t, out, k);
    }
  }

  function FirstStop(t: string): (k: nat)
    requires exists j :: 0 <= j < |t| && !InKey(t[j])
    ensures k < |t| && !InKey(t[k])
    ensures forall j :: 0 <= j < k ==> InKey(t[j])
  {
    if !InKey(t[0]) then 0
    else
      assert exists j :: 0 <= j < |t[1..]| && !InKey(t[1..][j]) by {
        var j :| 0 <= j < |t| && !InKey(t[j]);
        assert t[1..][j - 1] == t[j];
      }
      1 + FirstStop(t[1..])
  }

  /** After the substitution no opener is followed by a bare key. */
  lemma {:induction false} QuoteKeysAfterComplete(s: string, openers: set<char>, afterOpener: bool)
    requires Punctuation(openers)
    ensures NoBareKey(QuoteKeysAfter(s, openers, afterOpener), openers)
    decreases |s|
  {
    if s != [] {
      if afterOpener && BareKeyAt(s) {
        var rest := s[MatchEnd(s) + 1..];
        QuoteKeysAfterComplete(rest, openers, false);
        NoBareKeyQuoted(s, QuoteKeysAfter(rest, openers, false), openers);
      } else {
        QuoteKeysAfterComplete(s[1..], openers, s[0] in openers);
        if s[0] in openers {
          QuoteKeysAfterOpener(s[1..], openers);
        }
        NoBareKeyCons(s[0], QuoteKeysAfter(s[1..], openers, s[0] in openers), openers);
      }
    }
  }

  /** Quoting keys a second time changes nothing. */
  lemma QuoteKeysAfterIdempotent(s: string, openers: set<char>)
    requires Punctuation(openers)
    ensures QuoteKeysAfter(QuoteKeysAfter(s, openers, false), openers, false) == QuoteKeysAfter(s, openers, false)
  {
    QuoteKeysAfterComplete(s, openers, false);
    QuoteKeysAfterUnchanged(QuoteKeysAfter(s, openers, false), openers, false);
  }

  // ---------------------------------------------------------------------
  // The two versions of the repair

  /** The registry analysis: collapse, quote after `{` `,`, collapse, quote after `{` `[` `,`. */
  function RepairBeforeDecode(s: string): (r: string)
    ensures NoBareKey(r, LookbehindOpeners)
  {
    OpenersArePunctuation();
    var quoted := QuoteKeysCapturing(CollapseQuotes(s));
    QuoteKeysAfterComplete(CollapseQuotes(quoted), LookbehindOpeners, false);
    QuoteKeysAfter(CollapseQuotes(quoted), LookbehindOpeners, false)
  }

  /** The green-space analysis: one collapse, then quote after `{` `,` only. */
  function RepairSinglePass(s: string): (r: string)
    ensures NoBareKey(r, CaptureOpeners)
  {
    OpenersArePunctuation();
    CapturingIsLookbehind(CollapseQuotes(s));
    QuoteKeysAfterComplete(CollapseQuotes(s), CaptureOpeners, false);
    QuoteKeysCapturing(CollapseQuotes(s))
  }

  /** Text with no doubled quote and no bare key after an opener passes through the repair unchanged. */
  lemma RepairUnchanged(s: string)
    requires NoDoubledQuote(s) && NoBareKey(s, LookbehindOpeners)
    ensures RepairBeforeDecode(s) == s
    ensures RepairSinglePass(s) == s
  {
    CollapseQuotesUnchanged(s);
    assert NoBareKey(s, CaptureOpeners);
    CapturingIsLookbehind(s);
    QuoteKeysAfterUnchanged(s, CaptureOpeners, false);
    QuoteKeysAfterUnchanged(s, LookbehindOpeners, false);
  }

  // ---------------------------------------------------------------------
  // Worked examples. Each is assembled from small facts: evaluating a
  // substitution on a long literal in one proof is too costly.

  lemma QuoteKeysAfterOpenerNoKey(o: char, t: string, openers: set<char>)
    requires o in openers && !BareKeyAt(t)
    ensures QuoteKeysAfter([o] + t, openers, false) == [o] + QuoteKeysAfter(t, openers, false)
  {
    assert ([o] + t)[1..] == t;
  }

  lemma PolygonPieces()
    ensures "{type:\"Polygon\",coordinates:[1]}"
      == ['{'] + "type" + ":" + ("\"Polygon\"" + ([','] + "coordinates" + ":" + "[1]}"))
  {
  }

  lemma PolygonQuoted()
    ensures "{\"type\":\"Polygon\",\"coordinates\":[1]}"
      == ['{'] + "\"" + "type" + "\":" + ("\"Polygon\"" + ([','] + "\"" + "coordinates" + "\":" + ("[1]}" + "")))
  {
  }

  lemma PolygonQuotedPieces()
    ensures "{\"type\":\"Polygon\",\"coordinates\":[1]}"
      == ['{'] + ("\"type\":\"Polygon\"" + ([','] + ("\"coordinates\":" + (['['] + ("1]}" + "")))))
  {
  }

  lemma PolygonFacts()
    ensures AllAlnum("type") && AllAlnum("coordinates")
    ensures forall i :: 0 <= i < |"\"Polygon\""| ==> "\"Polygon\""[i] !in CaptureOpeners
    ensures forall i :: 0 <= i < |"[1]}"| ==> "[1]}"[i] !in CaptureOpeners
    ensures forall i :: 0 <= i < |"\"type\":\"Polygon\""| ==> "\"type\":\"Polygon\""[i] !in LookbehindOpeners
    ensures forall i :: 0 <= i < |"\"coordinates\":"| ==> "\"coordinates\":"[i] !in LookbehindOpeners
    ensures forall i :: 0 <= i < |"1]}"| ==> "1]}"[i] !in LookbehindOpeners
    ensures !BareKeyAt("1]}")
  {
    assert !KeyRest("]}");
  }

  lemma PolygonNoDoubledQuote()
    ensures NoDoubledQuote("{type:\"Polygon\",coordinates:[1]}")
  {
  }

  lemma PolygonQuotedNoDoubledQuote()
    ensures NoDoubledQuote("{\"type\":\"Polygon\",\"coordinates\":[1]}")
  {
  }

  lemma PolygonCapturingSteps(a: string, b: string, c: string, s: string)
    requires a == "[1]}" && b == [','] + "coordinates" + ":" + a
    requires c == "\"Polygon\"" + b && s == ['{'] + "type" + ":" + c
    ensures QuoteKeysCapturing(s)
      == ['{'] + "\"" + "type" + "\":" + ("\"Polygon\"" + ([','] + "\"" + "coordinates" + "\":" + (a + "")))
  {
    PolygonFacts();
    QuoteKeysCapturingKey('{', "type", c);
    QuoteKeysCapturingCopies("\"Polygon\"", b);
    QuoteKeysCapturingKey(',', "coordinates", a);
    QuoteKeysCapturingCopies(a, "");
    assert a + "" == a;
  }

  /** Bare keys after `{` and `,` are quoted by the capturing substitution. */
  lemma PolygonCapturing()
    ensures QuoteKeysCapturing("{type:\"Polygon\",coordinates:[1]}")
      == "{\"type\":\"Polygon\",\"coordinates\":[1]}"
  {
    PolygonPieces();
    PolygonQuoted();
    PolygonCapturingSteps("[1]}", [','] + "coordinates" + ":" + "[1]}",
      "\"Polygon\"" + ([','] + "coordinates" + ":" + "[1]}"), "{type:\"Polygon\",coordinates:[1]}");
  }

  lemma PolygonLookbehindSteps(y: string)
    requires y == ['{'] + ("\"type\":\"Polygon\"" + ([','] + ("\"coordinates\":" + (['['] + ("1]}" + "")))))
    ensures QuoteKeysAfter(y, LookbehindOpeners, false) == y
  {
    PolygonFacts();
    var t4 := "1]}" + "";
    QuoteKeysAfterCopies("1]}", "", LookbehindOpeners);
    assert "1]}" + "" == "1]}";
    var t3 := ['['] + t4;
    QuoteKeysAfterOpenerNoKey('[', t4, LookbehindOpeners);
    var t2 := "\"coordinates\":" + t3;
    QuoteKeysAfterCopies("\"coordinates\":", t3, LookbehindOpeners);
    var t1 := [','] + t2;
    assert t2[0] == '"';
    QuoteKeysAfterOpenerNoKey(',', t2, LookbehindOpeners);
    var t0 := "\"type\":\"Polygon\"" + t1;
    QuoteKeysAfterCopies("\"type\":\"Polygon\"", t1, LookbehindOpeners);
    assert t0[0] == '"';
    QuoteKeysAfterOpenerNoKey('{', t0, LookbehindOpeners);
  }

  /** The repaired geometry: every bare key quoted, by either version of the repair. */
  lemma PolygonRepaired()
    ensures RepairSinglePass("{type:\"Polygon\",coordinates:[1]}")
      == "{\"type\":\"Polygon\",\"coordinates\":[1]}"
    ensures RepairBeforeDecode("{type:\"Polygon\",coordinates:[1]}")
      == "{\"type\":\"Polygon\",\"coordinates\":[1]}"
  {
    PolygonNoDoubledQuote();
    CollapseQuotesUnchanged("{type:\"Polygon\",coordinates:[1]}");
    PolygonCapturing();
    PolygonQuotedNoDoubledQuote();
    CollapseQuotesUnchanged("{\"type\":\"Polygon\",\"coordinates\":[1]}");
    PolygonQuotedPieces();
    PolygonLookbehindSteps("{\"type\":\"Polygon\",\"coordinates\":[1]}");
  }

  lemma BracketKeyCollapse()
    ensures CollapseQuotes("[a:1]") == "[a:1]"
  {
    assert NoDoubledQuote("[a:1]");
    CollapseQuotesUnchanged("[a:1]");
  }

  lemma BracketKeyCapturing()
    ensures QuoteKeysCapturing("[a:1]") == "[a:1]"
  {
    QuoteKeysCapturingCopies("[a:1]", "");
    assert "[a:1]" + "" == "[a:1]";
  }

  lemma BracketKeyLookbehind()
    ensures QuoteKeysAfter("[a:1]", LookbehindOpeners, false) == "[\"a\":1]"
  {
  }

  lemma BracketKeyQuotedCollapse()
    ensures CollapseQuotes("[\"a\":1]") == "[\"a\":1]"
  {
    assert NoDoubledQuote("[\"a\":1]");
    CollapseQuotesUnchanged("[\"a\":1]");
  }

  /** A bare key after `[` is quoted by the registry version only. */
  lemma VersionsDifferOnBracket()
    ensures RepairSinglePass("[a:1]") == "[a:1]"
    ensures RepairBeforeDecode("[a:1]") == "[\"a\":1]"
  {
    BracketKeyCollapse();
    BracketKeyCapturing();
    BracketKeyLookbehind();
  }
}
