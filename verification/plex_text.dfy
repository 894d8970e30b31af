/**
 * The two string helpers of the newer script: `get_isolate_and_format_plex_element`,
 * which turns the printed form of a Plex object (`<MyPlexUser:123:Plex-User>`)
 * into its name, and the comma-list normaliser that turns a command-line entry
 * such as ` Movies , TV Shows ` into a list of names, by rewriting the
 * regular expression `(^\s+|\s*,\s*|\s+$)` to a comma and splitting at commas.
 */
module PlexText {
  import opened Media


  // ---------------------------------------------------------------------------
  // Element formatting
  // ---------------------------------------------------------------------------

  /** `str.replace('-', ' ')`: every hyphen becomes a space. */
  function Dehyphen(s: string): (r: string)
    ensures |r| == |s| && '-' !in r
    ensures forall i :: 0 <= i < |s| ==> r[i] == s[i] || (s[i] == '-' && r[i] == ' ')
  {
    seq(|s|, i requires 0 <= i < |s| => if s[i] == '-' then ' ' else s[i])
  }

  /**
   * `s.split(':')[-1]`: the text after the last colon, or all of `s` when it
   * has none. It is the longest suffix of `s` without a colon.
   */
  function AfterLastColon(s: string): (r: string)
    ensures |r| <= |s| && ':' !in r
  {
    if s == [] then []
    else if s[|s| - 1] == ':' then []
    else AfterLastColon(s[..|s| - 1]) + [s[|s| - 1]]
  }

  /** The text after the last colon is the suffix that a colon precedes, or all of `s`. */
  lemma {:induction false} AfterLastColonIsSuffix(s: string)
    ensures AfterLastColon(s) == s[|s| - |AfterLastColon(s)|..]
    ensures |AfterLastColon(s)| < |s| ==> s[|s| - |AfterLastColon(s)| - 1] == ':'
  {
    if s != [] && s[|s| - 1] != ':' {
      var init := s[..|s| - 1];
      AfterLastColonIsSuffix(init);
      var r0 := AfterLastColon(init);
      assert init[|init| - |r0|..] + [s[|s| - 1]] == s[|s| - |r0| - 1..];
    }
  }

  /** `s[:-1]`: all but the last character (the empty string stays empty). */
  function DropLast(s: string): (r: string)
    ensures s != [] ==> |r| == |s| - 1
    ensures |r| <= |s| && r == s[..|r|]
  {
    if s == [] then [] else s[..|s| - 1]
  }

  /** `s[1:]`: all but the first character. */
  function DropFirst(s: string): string
  {
    if s == [] then [] else s[1..]
  }

  /** `s[:1]`: the first character, as a string. */
  function FirstChar(s: string): string
  {
    if s == [] then [] else s[..1]
  }

  /** `s[-1:]`: the last character, as a string. */
  function LastChar(s: string): string
  {
    if s == [] then [] else s[|s| - 1..]
  }

  /** Whatever precedes the last colon, the text after it is what follows. */
  lemma {:induction false} AfterLastColonOfJoin(x: string, y: string)
    requires ':' !in y
    ensures AfterLastColon(x + ":" + y) == y
  {
    if y != [] {
      var init := y[..|y| - 1];
      assert init + [y[|y| - 1]] == y;
      assert (x + ":" + y)[..|x + ":" + y| - 1] == x + ":" + init;
      AfterLastColonOfJoin(x, init);
    }
  }

  /**
   * The first steps of the string case: hyphens to spaces, the text after the
   * last colon, and its last character (the closing `>`) cut off.
   */
  function Isolate(s: string): (r: string)
    ensures '-' !in r && ':' !in r
    ensures s != [] ==> |r| < |s|
    ensures s == [] ==> r == []
  {
    var d := Dehyphen(s);
    var a := AfterLastColon(d);
    AfterLastColonIsSuffix(d);
    var r := DropLast(a);
    assert forall x :: x in r ==> x in a;
    assert forall x :: x in a ==> x in d;
    r
  }

  /**
   * The source's "first character is `<`" test, as written: `s[1:] == '<'`.
   * It fires only on a two-character name whose second character is `<`, and
   * then the first `<` goes, which leaves the name's first character.
   */
  function StripOpenAsWritten(name: string): string
  {
    if DropFirst(name) == "<" then RemoveFirst(name, '<') else name
  }

  /** The same test as the comment beside it describes it: `s[:1] == '<'`. It drops a leading `<` and nothing else. */
  function StripOpen(name: string): string
  {
    if FirstChar(name) == "<" then RemoveFirst(name, '<') else name
  }

  /**
   * "If the last character is `>`, remove it", which removes the first `>`: the
   * last character only when no other `>` comes before it.
   */
  function StripClose(name: string): string
  {
    if LastChar(name) == ">" then RemoveFirst(name, '>') else name
  }

  /**
   * The string case of `get_isolate_and_format_plex_element`, as written. The
   * result never holds a hyphen or a colon, and it is shorter than a non-empty
   * input, since the character before the cut is dropped.
   */
  function FormatElement(s: string): (r: string)
    ensures '-' !in r && ':' !in r
    ensures s != [] ==> |r| < |s|
    ensures s == [] ==> r == []
  {
    StripClose(StripOpenAsWritten(Isolate(s)))
  }

  /** The string case with the first-character test `s[:1] == '<'`; same guarantees. */
  function FormatElementCorrected(s: string): (r: string)
    ensures '-' !in r && ':' !in r
    ensures s != [] ==> |r| < |s|
    ensures s == [] ==> r == []
  {
    StripClose(StripOpen(Isolate(s)))
  }

  /** A name without colons or angle brackets. */
  predicate PlainName(name: string)
  {
    ':' !in name && '<' !in name && '>' !in name
  }

  /** Hyphens become spaces and nothing else changes, so a plain name stays plain. */
  lemma DehyphenPlain(name: string)
    requires PlainName(name)
    ensures PlainName(Dehyphen(name))
  {
    var d := Dehyphen(name);
    forall i | 0 <= i < |d|
      ensures d[i] != ':' && d[i] != '<' && d[i] != '>'
    {
      assert name[i] in name;
    }
  }

  /** The printed form `...:name>` is isolated to its name, with hyphens as spaces. */
  lemma IsolatePrinted(prefix: string, name: string)
    requires ':' !in name
    ensures Isolate(prefix + ":" + name + ">") == Dehyphen(name)
  {
    var s := prefix + ":" + name + ">";
    var d := Dehyphen(s);
    var tail := Dehyphen(name) + ">";
    assert d == Dehyphen(prefix) + ":" + tail;
    DehyphenPlainColon(name);
    AfterLastColonOfJoin(Dehyphen(prefix), tail);
  }

  /** Hyphens become spaces, so a name without a colon stays without one. */
  lemma DehyphenPlainColon(name: string)
    requires ':' !in name
    ensures ':' !in Dehyphen(name) + ">"
  {
    var d := Dehyphen(name);
    forall i | 0 <= i < |d|
      ensures d[i] != ':'
    {
      assert name[i] in name;
    }
  }

  /**
   * The printed form of a Plex object, `<Kind:id:name>` or anything else that
   * ends in `:name>`, formats to its name with hyphens turned to spaces.
   */
  lemma FormatElementOfPrinted(prefix: string, name: string)
    requires PlainName(name)
    ensures FormatElement(prefix + ":" + name + ">") == Dehyphen(name)
  {
    IsolatePrinted(prefix, name);
    DehyphenPlain(name);
    StripOpenAsWrittenWithoutBracket(Dehyphen(name));
    StripCloseWithoutBracket(Dehyphen(name));
  }

  /** The name of the source's own example, with its hyphen turned to a space. */
  lemma DehyphenExampleName(name: string)
    requires name == "Plex-User"
    ensures Dehyphen(name) == "Plex User"
  {
    var d := Dehyphen(name);
    forall i | 0 <= i < |d|
      ensures d[i] == "Plex User"[i]
    {
      assert d[i] == if name[i] == '-' then ' ' else name[i];
    }
  }

  /** The example of the source's own comment: `<MyPlexUser:123456789:Plex-User>` becomes `Plex User`. */
  lemma DocumentedExample(element: string)
    requires element == "<MyPlexUser:123456789:Plex-User>"
    ensures FormatElement(element) == "Plex User"
  {
    var prefix, name := element[..21], element[22..31];
    assert |element| == 32 && element[21] == ':' && element[31] == '>';
    assert element == prefix + ":" + name + ">";
    assert name == "Plex-User";
    assert PlainName(name);
    FormatElementOfPrinted(prefix, name);
    DehyphenExampleName(name);
  }

  /** A bracketed name without a colon, `<name>`, is isolated to `<name` with hyphens as spaces. */
  lemma IsolateBracketed(name: string)
    requires PlainName(name)
    ensures Isolate("<" + name + ">") == "<" + Dehyphen(name)
  {
    var s := "<" + name + ">";
    DehyphenPlain(name);
    assert Dehyphen(s) == "<" + Dehyphen(name) + ">";
    assert ':' !in Dehyphen(s);
    AfterLastColonIsSuffix(Dehyphen(s));
    assert AfterLastColon(Dehyphen(s)) == Dehyphen(s);
  }

  /**
   * The discrepancy: an element without a colon, `<name>`, keeps its opening
   * bracket, because `s[1:] == '<'` only holds for a two-character string
   * ending with `<`.
   */
  lemma FormatElementKeepsOpeningBracket(name: string)
    requires PlainName(name)
    ensures FormatElement("<" + name + ">") == "<" + Dehyphen(name)
  {
    IsolateBracketed(name);
    DehyphenPlain(name);
    var n := Dehyphen(name);
    StripOpenAsWrittenOfBracketed(n);
    assert '>' !in "<" + n;
    StripCloseWithoutBracket("<" + n);
  }

  /** A name without `<` has nothing for the source's opening-bracket step to remove. */
  lemma StripOpenAsWrittenWithoutBracket(n: string)
    requires '<' !in n
    ensures StripOpenAsWritten(n) == n
  {
    assert DropFirst(n) != "<" by {
      if |n| == 2 {
        assert DropFirst(n)[0] == n[1] && n[1] in n;
      }
    }
  }

  /** The source's opening-bracket step keeps the bracket of `<name`. */
  lemma StripOpenAsWrittenOfBracketed(n: string)
    requires '<' !in n
    ensures StripOpenAsWritten("<" + n) == "<" + n
  {
    assert DropFirst("<" + n) == n;
    assert n != "<" by {
      if |n| == 1 {
        assert n[0] in n;
      }
    }
  }

  /** A name without `<` has nothing for the first-character test to remove. */
  lemma StripOpenWithoutBracket(n: string)
    requires '<' !in n
    ensures StripOpen(n) == n
  {
    if n != [] {
      assert n[0] in n;
      assert FirstChar(n) == [n[0]];
    }
  }

  /** A name without `>` has nothing for the closing-bracket step to remove. */
  lemma StripCloseWithoutBracket(n: string)
    requires '>' !in n
    ensures StripClose(n) == n
  {
    if n != [] {
      assert n[|n| - 1] in n;
      assert LastChar(n) == [n[|n| - 1]];
    }
  }

  /** As written, the opening-bracket step fires on `x<` alone and leaves `x`. */
  lemma StripOpenAsWrittenFires(name: string)
    requires |name| == 2 && name[1] == '<'
    ensures StripOpenAsWritten(name) == name[..1]
  {
    assert DropFirst(name) == "<";
    assert name[0] != '<' ==> FirstIndex(name, '<') == 1;
  }

  /** As written, every name other than `x<` passes the opening-bracket step unchanged. */
  lemma StripOpenAsWrittenOtherwise(name: string)
    requires !(|name| == 2 && name[1] == '<')
    ensures StripOpenAsWritten(name) == name
  {
  }

  /** With the first-character test, a name not starting with `<` is unchanged. */
  lemma StripOpenOtherwise(name: string)
    requires |name| == 0 || name[0] != '<'
    ensures StripOpen(name) == name
  {
    if name != [] {
      assert FirstChar(name) == [name[0]];
    }
  }

  /**
   * A trailing `>` costs the name exactly one `>`; when it is the only `>`, it
   * is the last character that goes.
   */
  lemma StripCloseOfTrailing(name: string)
    requires |name| > 0 && name[|name| - 1] == '>'
    ensures |StripClose(name)| == |name| - 1
    ensures multiset(StripClose(name)) + multiset{'>'} == multiset(name)
    ensures '>' !in name[..|name| - 1] ==> StripClose(name) == name[..|name| - 1]
  {
    assert LastChar(name) == ">";
    assert name[|name| - 1] in name;
    var i := FirstIndex(name, '>');
    assert name == name[..i] + [name[i]] + name[i + 1..];
    assert StripClose(name) == name[..i] + name[i + 1..];
    if i < |name| - 1 {
      assert name[..|name| - 1][i] == '>';
    }
  }

  /** Without a trailing `>` the closing-bracket step changes nothing. */
  lemma StripCloseOtherwise(name: string)
    requires |name| == 0 || name[|name| - 1] != '>'
    ensures StripClose(name) == name
  {
    if name != [] {
      assert LastChar(name) == [name[|name| - 1]];
    }
  }

  /** With the first-character test, the opening bracket of `<name` is removed. */
  lemma StripOpenOfBracketed(n: string)
    ensures StripOpen("<" + n) == n
  {
    var b := "<" + n;
    assert b[1..] == n;
  }

  /** With the first-character test, `<name>` formats to the name. */
  lemma FormatElementCorrectedStripsBrackets(name: string)
    requires PlainName(name)
    ensures FormatElementCorrected("<" + name + ">") == Dehyphen(name)
  {
    IsolateBracketed(name);
    DehyphenPlain(name);
    StripOpenOfBracketed(Dehyphen(name));
    StripCloseWithoutBracket(Dehyphen(name));
  }

  /** The corrected function agrees with the source on every printed `...:name>` form. */
  lemma FormatElementCorrectedOfPrinted(prefix: string, name: string)
    requires PlainName(name)
    ensures FormatElementCorrected(prefix + ":" + name + ">") == Dehyphen(name)
  {
    IsolatePrinted(prefix, name);
    DehyphenPlain(name);
    StripOpenWithoutBracket(Dehyphen(name));
    StripCloseWithoutBracket(Dehyphen(name));
  }

  /**
   * The list case of `get_isolate_and_format_plex_element`: every element is
   * formatted as in the string case and appended, in order.
   */
  method FormatElements(elements: seq<string>) returns (formatted: seq<string>)
    ensures |formatted| == |elements|
    ensures forall i :: 0 <= i < |elements| ==> formatted[i] == FormatElement(elements[i])
  {
    formatted := [];
    for i := 0 to |elements|
      invariant |formatted| == i
      invariant forall k :: 0 <= k < i ==> formatted[k] == FormatElement(elements[k])
    {
      formatted := formatted + [FormatElement(elements[i])];
    }
  }

  // ---------------------------------------------------------------------------
  // Comma-list normaliser
  // ---------------------------------------------------------------------------

  /**
   * Python's `\s` on `str` patterns: the characters for which `str.isspace()`
   * holds. The comma the pattern matches around is never one of them.
   */
  predicate IsSpace(c: char)
  {
    c == ' ' || ('\t' <= c <= '\r') || ('\U{1c}' <= c <= '\U{1f}') || c == '\U{85}' || c == '\U{a0}'
    || c == '\U{1680}' || ('\U{2000}' <= c <= '\U{200a}') || c == '\U{2028}' || c == '\U{2029}'
    || c == '\U{202f}' || c == '\U{205f}' || c == '\U{3000}'
  }

  /** The comma the pattern matches around is not whitespace. */
  lemma CommaIsNotSpace()
    ensures !IsSpace(',')
  {
  }

  /** The length of the run of whitespace starting at `p`. */
  function SpaceRun(s: string, p: nat): (w: nat)
    requires p <= |s|
    ensures p + w <= |s|
    decreases |s| - p
  {
    if p < |s| && IsSpace(s[p]) then 1 + SpaceRun(s, p + 1) else 0
  }

  /** The run is whitespace and is maximal: what follows it is not. */
  lemma {:induction false} SpaceRunIsMaximal(s: string, p: nat)
    requires p <= |s|
    ensures forall k :: p <= k < p + SpaceRun(s, p) ==> IsSpace(s[k])
    ensures p + SpaceRun(s, p) < |s| ==> !IsSpace(s[p + SpaceRun(s, p)])
    decreases |s| - p
  {
    if p < |s| && IsSpace(s[p]) {
      SpaceRunIsMaximal(s, p + 1);
    }
  }

  /**
   * The substitution from position `p` on, where `^` no longer matches. At
   * each position the alternatives are tried in order: `\s*,\s*` (a comma with
   * the whitespace on both of its sides), then `\s+$` (whitespace up to the
   * end); a position where neither matches copies its character.
   */
  function SubFrom(s: string, p: nat): string
    requires p <= |s|
    decreases |s| - p
  {
    if p == |s| then []
    else
      var w := SpaceRun(s, p);
      if p + w < |s| && s[p + w] == ',' then
        "," + SubFrom(s, AfterComma(s, p))
      else if w > 0 && p + w == |s| then
        ","
      else
        [s[p]] + SubFrom(s, p + 1)
  }

  /**
   * `re.sub(r'(^\s+|\s*,\s*|\s+$)', ',', s)`: leading whitespace, handled by
   * `^\s+`, then the rest. Every match is at least one character and becomes
   * one comma, so the result is never longer than the entry.
   */
  function Substitute(s: string): string
  {
    if s != [] && IsSpace(s[0]) then "," + SubFrom(s, SpaceRun(s, 0)) else SubFrom(s, 0)
  }

  /** The substitution never lengthens the text: every match becomes one comma. */
  lemma {:induction false} SubFromShortens(s: string, p: nat)
    requires p <= |s|
    ensures |SubFrom(s, p)| <= |s| - p
    decreases |s| - p
  {
    if p < |s| {
      var w := SpaceRun(s, p);
      if p + w < |s| && s[p + w] == ',' {
        SubFromShortens(s, AfterComma(s, p));
      } else if !(w > 0 && p + w == |s|) {
        SubFromShortens(s, p + 1);
      }
    }
  }

  /** `Substitute` is no longer than its input, and empty on an empty input. */
  lemma SubstituteShortens(s: string)
    ensures |Substitute(s)| <= |s|
    ensures s == [] ==> Substitute(s) == []
  {
    if s != [] && IsSpace(s[0]) {
      SubFromShortens(s, SpaceRun(s, 0));
    } else {
      SubFromShortens(s, 0);
    }
  }

  /** `t.split(',')`: the pieces between commas, at least one. */
  function Split(t: string): (pieces: seq<string>)
    ensures |pieces| >= 1
    ensures forall k :: 0 <= k < |pieces| ==> ',' !in pieces[k]
  {
    if ',' !in t then [t]
    else
      var c := FirstIndex(t, ',');
      [t[..c]] + Split(t[c + 1..])
  }

  /** `','.join(pieces)`: the first piece, then each further piece after a comma. */
  function Join(pieces: seq<string>): (r: string)
    requires |pieces| >= 1
    ensures pieces[0] <= r
    ensures |pieces| > 1 ==> |r| > |pieces[0]| && r[|pieces[0]|] == ','
  {
    if |pieces| == 1 then pieces[0] else pieces[0] + "," + Join(pieces[1..])
  }

  /**
   * The list the normaliser produces from a command-line entry: at least one
   * name, and the names joined with commas give back the substituted entry.
   */
  function Normalise(s: string): (names: seq<string>)
    ensures |names| >= 1
    ensures Join(names) == Substitute(s)
  {
    JoinSplit(Substitute(s));
    Split(Substitute(s))
  }

  /** Splitting at commas loses nothing: joining the pieces gives the string back. */
  lemma {:induction false} JoinSplit(t: string)
    ensures Join(Split(t)) == t
    decreases |t|
  {
    if ',' in t {
      var c := FirstIndex(t, ',');
      var pieces, rest := Split(t), Split(t[c + 1..]);
      JoinSplit(t[c + 1..]);
      assert pieces == [t[..c]] + rest;
      assert pieces[0] == t[..c] && pieces[1..] == rest;
      assert Join(pieces) == t[..c] + "," + Join(rest);
      assert t == t[..c] + "," + t[c + 1..];
    }
  }

  /** Whitespace only between two characters neither of which is a comma. */
  predicate Inner(t: string)
  {
    forall i :: 0 <= i < |t| && IsSpace(t[i]) ==>
      i + 1 < |t| && t[i + 1] != ',' && (i > 0 ==> t[i - 1] != ',')
  }

  /** What the substitution guarantees: no whitespace at either end or beside a comma. */
  predicate Good(t: string)
  {
    Inner(t) && (t != [] ==> !IsSpace(t[0]))
  }

  /** Putting a character in front keeps `Inner` when it does not put whitespace beside a comma. */
  lemma InnerCons(c: char, rest: string)
    requires Inner(rest)
    requires c == ',' ==> rest == [] || !IsSpace(rest[0])
    requires IsSpace(c) ==> rest != [] && rest[0] != ','
    ensures Inner([c] + rest)
  {
    var r := [c] + rest;
    forall i | 0 <= i < |r| && IsSpace(r[i])
      ensures i + 1 < |r| && r[i + 1] != ',' && (i > 0 ==> r[i - 1] != ',')
    {
      if i > 0 {
        assert r[i] == rest[i - 1];
      }
    }
  }

  /** Where no comma follows the whitespace at `p`, the substitution copies `s[p]`. */
  lemma SubFromCopies(s: string, p: nat)
    requires p < |s| && p + SpaceRun(s, p) < |s| && s[p + SpaceRun(s, p)] != ','
    ensures SubFrom(s, p) == [s[p]] + SubFrom(s, p + 1)
  {
  }

  /** The position after a comma at `p + SpaceRun(s, p)` and the whitespace that follows it. */
  function AfterComma(s: string, p: nat): (q: nat)
    requires p <= |s| && p + SpaceRun(s, p) < |s|
    ensures p < q <= |s|
  {
    var c := p + SpaceRun(s, p);
    c + 1 + SpaceRun(s, c + 1)
  }

  /** Where a comma follows the whitespace at `p`, the match becomes a single comma. */
  lemma SubFromComma(s: string, p: nat)
    requires p < |s| && p + SpaceRun(s, p) < |s| && s[p + SpaceRun(s, p)] == ','
    ensures SubFrom(s, p) == [','] + SubFrom(s, AfterComma(s, p))
  {
  }

  /** Whitespace up to the end becomes a single comma. */
  lemma SubFromTrailing(s: string, p: nat)
    requires p < |s| && SpaceRun(s, p) > 0 && p + SpaceRun(s, p) == |s|
    ensures SubFrom(s, p) == [',']
  {
  }

  /** The comma case keeps whitespace away from the emitted comma. */
  lemma InnerCommaStep(s: string, p: nat)
    requires p < |s| && p + SpaceRun(s, p) < |s| && s[p + SpaceRun(s, p)] == ','
    requires Inner(SubFrom(s, AfterComma(s, p)))
    requires SubFrom(s, AfterComma(s, p)) != [] && IsSpace(SubFrom(s, AfterComma(s, p))[0])
             ==> AfterComma(s, p) < |s| && IsSpace(s[AfterComma(s, p)])
    ensures Inner(SubFrom(s, p)) && SubFrom(s, p) != [] && SubFrom(s, p)[0] == ','
  {
    var c := p + SpaceRun(s, p);
    SpaceRunIsMaximal(s, c + 1);
    SubFromComma(s, p);
    InnerCons(',', SubFrom(s, AfterComma(s, p)));
  }

  /** The copy case keeps `Inner` and starts with the copied character. */
  lemma InnerCopyStep(s: string, p: nat)
    requires p < |s| && p + SpaceRun(s, p) < |s| && s[p + SpaceRun(s, p)] != ','
    requires Inner(SubFrom(s, p + 1))
    ensures Inner(SubFrom(s, p)) && SubFrom(s, p) != [] && SubFrom(s, p)[0] == s[p]
  {
    SubFromCopies(s, p);
    SpaceRunIsMaximal(s, p);
    if IsSpace(s[p]) {
      assert SpaceRun(s, p + 1) == SpaceRun(s, p) - 1;
      SubFromCopies(s, p + 1);
    }
    InnerCons(s[p], SubFrom(s, p + 1));
  }

  /**
   * From any position, the substitution emits whitespace only between two
   * non-comma characters, and it starts with whitespace only where the input
   * does.
   */
  lemma {:induction false} SubFromInner(s: string, p: nat)
    requires p <= |s|
    ensures Inner(SubFrom(s, p))
    ensures SubFrom(s, p) != [] && IsSpace(SubFrom(s, p)[0]) ==> p < |s| && IsSpace(s[p])
    decreases |s| - p
  {
    if p < |s| {
      var w := SpaceRun(s, p);
      if p + w < |s| && s[p + w] == ',' {
        SubFromInner(s, AfterComma(s, p));
        InnerCommaStep(s, p);
        CommaIsNotSpace();
      } else if w > 0 && p + w == |s| {
        SubFromTrailing(s, p);
        CommaIsNotSpace();
      } else {
        SubFromInner(s, p + 1);
        InnerCopyStep(s, p);
      }
    }
  }

  /** The substituted string has no whitespace at either end or beside a comma. */
  lemma SubstituteIsGood(s: string)
    ensures Good(Substitute(s))
  {
    if s != [] && IsSpace(s[0]) {
      var w := SpaceRun(s, 0);
      SpaceRunIsMaximal(s, 0);
      SubFromInner(s, w);
      var rest := SubFrom(s, w);
      var r := "," + rest;
      forall i | 0 <= i < |r| && IsSpace(r[i])
        ensures i + 1 < |r| && r[i + 1] != ',' && (i > 0 ==> r[i - 1] != ',')
      {
        assert i > 0 && rest[i - 1] == r[i];
        assert i > 1;
      }
    } else {
      SubFromInner(s, 0);
    }
  }

  /** A piece has no whitespace at either end. */
  predicate Trimmed(piece: string)
  {
    piece != [] ==> !IsSpace(piece[0]) && !IsSpace(piece[|piece| - 1])
  }

  /** The pieces of a string with no whitespace at its ends or beside a comma are trimmed. */
  lemma {:induction false} SplitGoodIsTrimmed(t: string)
    requires Good(t)
    ensures forall k :: 0 <= k < |Split(t)| ==> Trimmed(Split(t)[k])
    decreases |t|
  {
    if ',' in t {
      var c := FirstIndex(t, ',');
      var tail := t[c + 1..];
      assert Good(tail) by {
        forall i | 0 <= i < |tail| && IsSpace(tail[i])
          ensures i + 1 < |tail| && tail[i + 1] != ',' && (i > 0 ==> tail[i - 1] != ',')
        {
          assert t[c + 1 + i] == tail[i];
        }
      }
      SplitGoodIsTrimmed(tail);
      var head := t[..c];
      if head != [] {
        assert head[0] == t[0];
        assert head[|head| - 1] == t[c - 1];
      }
    } else {
      if t != [] {
        assert !IsSpace(t[|t| - 1]);
      }
    }
  }

  /**
   * Every name the normaliser produces has no comma and no whitespace at either
   * end.
   */
  lemma NormalisedNamesAreTrimmed(s: string)
    ensures forall k :: 0 <= k < |Normalise(s)| ==> ',' !in Normalise(s)[k] && Trimmed(Normalise(s)[k])
  {
    SubstituteIsGood(s);
    SplitGoodIsTrimmed(Substitute(s));
  }

  /** Without whitespace the substitution changes nothing from position `p` on. */
  lemma {:induction false} SubFromWithoutSpace(s: string, p: nat)
    requires p <= |s|
    requires forall i :: 0 <= i < |s| ==> !IsSpace(s[i])
    ensures SubFrom(s, p) == s[p..]
    decreases |s| - p
  {
    if p < |s| {
      SubFromWithoutSpace(s, p + 1);
      assert s[p..] == [s[p]] + s[p + 1..];
    }
  }

  /**
   * An entry without whitespace is split exactly at its commas, and joining
   * the names gives the entry back.
   */
  lemma NormaliseWithoutSpace(s: string)
    requires forall i :: 0 <= i < |s| ==> !IsSpace(s[i])
    ensures Normalise(s) == Split(s)
    ensures Join(Normalise(s)) == s
  {
    SubFromWithoutSpace(s, 0);
    JoinSplit(s);
  }

  /** The characters of `s` that are neither whitespace nor commas: the content of the names. */
  function Content(s: string): string
  {
    if s == [] then []
    else (if IsSpace(s[0]) || s[0] == ',' then [] else [s[0]]) + Content(s[1..])
  }

  /** Skipping separators (whitespace and commas) between `p` and `q` skips no content. */
  lemma {:induction false} ContentSkip(s: string, p: nat, q: nat)
    requires p <= q <= |s|
    requires forall k :: p <= k < q ==> IsSpace(s[k]) || s[k] == ','
    ensures Content(s[p..]) == Content(s[q..])
    decreases q - p
  {
    if p < q {
      assert s[p..][1..] == s[p + 1..];
      ContentSkip(s, p + 1, q);
    }
  }

  /** The content of a string with one more character in front. */
  lemma ContentCons(c: char, x: string)
    ensures Content([c] + x) == (if IsSpace(c) || c == ',' then [] else [c]) + Content(x)
  {
    assert ([c] + x)[1..] == x;
  }

  /** The comma case: the emitted comma and the skipped separators carry no content. */
  lemma ContentCommaStep(s: string, p: nat)
    requires p < |s| && p + SpaceRun(s, p) < |s| && s[p + SpaceRun(s, p)] == ','
    requires Content(SubFrom(s, AfterComma(s, p))) == Content(s[AfterComma(s, p)..])
    ensures Content(SubFrom(s, p)) == Content(s[p..])
  {
    var c := p + SpaceRun(s, p);
    SpaceRunIsMaximal(s, p);
    SpaceRunIsMaximal(s, c + 1);
    SubFromComma(s, p);
    ContentCons(',', SubFrom(s, AfterComma(s, p)));
    ContentSkip(s, p, AfterComma(s, p));
  }

  /** The trailing case: the whitespace up to the end carries no content. */
  lemma ContentTrailingStep(s: string, p: nat)
    requires p < |s| && SpaceRun(s, p) > 0 && p + SpaceRun(s, p) == |s|
    ensures Content(SubFrom(s, p)) == Content(s[p..])
  {
    SpaceRunIsMaximal(s, p);
    SubFromTrailing(s, p);
    ContentCons(',', []);
    ContentSkip(s, p, |s|);
  }

  /** The copy case: the copied character contributes the same content on both sides. */
  lemma ContentCopyStep(s: string, p: nat)
    requires p < |s| && p + SpaceRun(s, p) < |s| && s[p + SpaceRun(s, p)] != ','
    requires Content(SubFrom(s, p + 1)) == Content(s[p + 1..])
    ensures Content(SubFrom(s, p)) == Content(s[p..])
  {
    SubFromCopies(s, p);
    ContentCons(s[p], SubFrom(s, p + 1));
    ContentCons(s[p], s[p + 1..]);
    assert s[p..] == [s[p]] + s[p + 1..];
  }

  /** From any position, the substitution keeps the content of the rest of the input. */
  lemma {:induction false} SubFromContent(s: string, p: nat)
    requires p <= |s|
    ensures Content(SubFrom(s, p)) == Content(s[p..])
    decreases |s| - p
  {
    if p < |s| {
      var w := SpaceRun(s, p);
      if p + w < |s| && s[p + w] == ',' {
        SubFromContent(s, AfterComma(s, p));
        ContentCommaStep(s, p);
      } else if w > 0 && p + w == |s| {
        ContentTrailingStep(s, p);
      } else {
        SubFromContent(s, p + 1);
        ContentCopyStep(s, p);
      }
    }
  }

  /**
   * The normaliser only removes whitespace and adds commas: the names it
   * produces hold, in order, exactly the characters of the entry that are
   * neither whitespace nor commas.
   */
  lemma NormalisePreservesContent(s: string)
    ensures Content(Join(Normalise(s))) == Content(s)
  {
    JoinSplit(Substitute(s));
    if s != [] && IsSpace(s[0]) {
      var w := SpaceRun(s, 0);
      SpaceRunIsMaximal(s, 0);
      SubFromContent(s, w);
      ContentSkip(s, 0, w);
      assert ("," + SubFrom(s, w))[1..] == SubFrom(s, w);
    } else {
      SubFromContent(s, 0);
    }
    assert s[0..] == s;
  }
}
