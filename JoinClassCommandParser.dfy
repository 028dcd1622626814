/**
 * Parses the arguments of the join-class command, "n/<person name> c/<class name>",
 * into a JoinClass value. Parsing fails (None) when anything but whitespace comes
 * before the first prefix, when either prefix is missing, or when either value is
 * empty once trimmed. When a prefix is given more than once, its last value is taken.
 */
module JoinClassCommandParser {
  import opened Wrappers
  import opened Text
  import opened ArgumentTokenizer
  import opened JoinClassCommand

  function Parse(args: string): (r: Option<JoinClass>)
    ensures r.Some? ==> IsTrimmed(r.value.personName) && r.value.personName != []
    ensures r.Some? ==> IsTrimmed(r.value.className) && r.value.className != []
  {
    var m := Tokenize(args);
    var name := GetValue(m, Name);
    var cls := GetValue(m, ClassName);
    if m.preamble != [] || name.None? || cls.None? || name.value == [] || cls.value == [] then None
    else Some(JoinClass(name.value, cls.value))
  }

  /** x contains no "n/" or "c/" anywhere. */
  predicate NoMarker(x: string) {
    forall i :: 0 <= i < |x| - 1 ==> !(IsMarker(x[i]) && x[i + 1] == '/')
  }

  /** The text that separates two tokens: blank, ending in a space. */
  predicate IsSeparator(w: string) {
    IsBlank(w) && w != [] && w[|w| - 1] == ' '
  }

  /** A value the parser can return unchanged: non-empty, trimmed, free of prefixes. */
  predicate IsPlainValue(x: string) {
    x != [] && IsTrimmed(x) && NoMarker(x)
  }

  /** The arguments written with the given whitespace around and between the tokens. */
  function Spaced(lead: string, gap1: string, name: string, gap2: string,
                  gap3: string, cls: string, trail: string): string
  {
    lead + "n/" + gap1 + name + gap2 + "c/" + gap3 + cls + trail
  }

  /** The layout requirements of ParseIgnoresWhitespace. */
  predicate WellSpaced(lead: string, gap1: string, name: string, gap2: string,
                       gap3: string, cls: string, trail: string)
  {
    && (lead == [] || IsSeparator(lead))
    && IsBlank(gap1) && IsSeparator(gap2) && IsBlank(gap3) && IsBlank(trail)
    && IsPlainValue(name) && IsPlainValue(cls)
  }

  /** Whitespace around and between the tokens does not change the parsed command. */
  lemma ParseIgnoresWhitespace(lead: string, gap1: string, name: string, gap2: string,
                               gap3: string, cls: string, trail: string)
    requires lead == [] || IsSeparator(lead)
    requires IsBlank(gap1) && IsSeparator(gap2) && IsBlank(gap3) && IsBlank(trail)
    requires IsPlainValue(name) && IsPlainValue(cls)
    ensures Parse(Spaced(lead, gap1, name, gap2, gap3, cls, trail)) == Some(JoinClass(name, cls))
  {
    var s := Spaced(lead, gap1, name, gap2, gap3, cls, trail);
    var p0 := |lead|;
    var p1 := p0 + 2 + |gap1 + name + gap2|;
    SpacedPreamble(lead, gap1, name, gap2, gap3, cls, trail);
    SpacedName(lead, gap1, name, gap2, gap3, cls, trail);
    SpacedClass(lead, gap1, name, gap2, gap3, cls, trail);
    ParseNameThenClass(s, p0, p1);
  }

  /** Only whitespace precedes the "n/" prefix. */
  lemma SpacedPreamble(lead: string, gap1: string, name: string, gap2: string,
                       gap3: string, cls: string, trail: string)
    requires WellSpaced(lead, gap1, name, gap2, gap3, cls, trail)
    ensures var s := Spaced(lead, gap1, name, gap2, gap3, cls, trail);
            && |lead| + 2 <= |s| && PrefixAt(s, |lead|) && s[|lead|] == 'n'
            && NoPrefixIn(s, 0, |lead|) && Trim(s[..|lead|]) == []
  {
    var s := Spaced(lead, gap1, name, gap2, gap3, cls, trail);
    var p0 := |lead|;
    assert s == lead + ("n/" + gap1 + name + gap2 + "c/" + gap3 + cls + trail);
    assert s[..p0] == lead;
    assert forall j :: 0 <= j < p0 ==> s[j] == lead[j];
    assert s[p0] == 'n' && s[p0 + 1] == '/';
    assert p0 > 0 ==> s[p0 - 1] == lead[p0 - 1];
    TrimAroundTrimmed(lead, [], []);
    assert lead + [] + [] == lead;
  }

  /** The "n/" prefix's value runs to the "c/" prefix and trims to the name. */
  lemma SpacedName(lead: string, gap1: string, name: string, gap2: string,
                   gap3: string, cls: string, trail: string)
    requires WellSpaced(lead, gap1, name, gap2, gap3, cls, trail)
    ensures var s := Spaced(lead, gap1, name, gap2, gap3, cls, trail);
            var p1 := |lead| + 2 + |gap1 + name + gap2|;
            && p1 + 2 <= |s| && PrefixAt(s, p1) && s[p1] == 'c'
            && NoPrefixIn(s, |lead| + 2, p1) && Trim(s[|lead| + 2..p1]) == name
  {
    var s := Spaced(lead, gap1, name, gap2, gap3, cls, trail);
    var nameText := gap1 + name + gap2;
    var p0 := |lead|;
    var p1 := p0 + 2 + |nameText|;
    assert s == (lead + "n/") + nameText + ("c/" + gap3 + cls + trail);
    assert s[p0 + 2..p1] == nameText;
    assert s[p1] == 'c' && s[p1 + 1] == '/';
    assert s[p1 - 1] == nameText[|nameText| - 1] == gap2[|gap2| - 1];
    NoPrefixInValue(s, p0 + 2, nameText, gap1, name, gap2);
    TrimAroundTrimmed(gap1, name, gap2);
  }

  /** The "c/" prefix's value runs to the end and trims to the class name. */
  lemma SpacedClass(lead: string, gap1: string, name: string, gap2: string,
                    gap3: string, cls: string, trail: string)
    requires WellSpaced(lead, gap1, name, gap2, gap3, cls, trail)
    ensures var s := Spaced(lead, gap1, name, gap2, gap3, cls, trail);
            var p1 := |lead| + 2 + |gap1 + name + gap2|;
            && p1 + 2 <= |s| && NoPrefixIn(s, p1 + 2, |s|) && Trim(s[p1 + 2..]) == cls
  {
    var s := Spaced(lead, gap1, name, gap2, gap3, cls, trail);
    var clsText := gap3 + cls + trail;
    var p1 := |lead| + 2 + |gap1 + name + gap2|;
    assert s == (lead + "n/" + gap1 + name + gap2 + "c/") + clsText;
    assert s[p1 + 2..] == clsText;
    NoPrefixInValue(s, p1 + 2, clsText, gap3, cls, trail);
    TrimAroundTrimmed(gap3, cls, trail);
  }

  /** One "n/" prefix followed by one "c/" prefix, nothing but whitespace before the
      first: the command holds the two trimmed values, and parsing fails exactly when
      either of them is empty. */
  lemma ParseNameThenClass(s: string, p0: nat, p1: nat)
    requires PrefixAt(s, p0) && s[p0] == 'n' && PrefixAt(s, p1) && s[p1] == 'c'
    requires p0 + 2 <= p1
    requires NoPrefixIn(s, 0, p0) && NoPrefixIn(s, p0 + 2, p1) && NoPrefixIn(s, p1 + 2, |s|)
    requires Trim(s[..p0]) == []
    ensures Parse(s) ==
            if Trim(s[p0 + 2..p1]) != [] && Trim(s[p1 + 2..]) != []
            then Some(JoinClass(Trim(s[p0 + 2..p1]), Trim(s[p1 + 2..])))
            else None
  {
    TokenizeNameThenClass(s, p0, p1);
    var e1 := Entry(Name, Trim(s[p0 + 2..p1]));
    var e2 := Entry(ClassName, Trim(s[p1 + 2..]));
    assert [e1, e2][1..] == [e2];
    assert AllValues([e1, e2], Name) == [e1.value];
    assert AllValues([e1, e2], ClassName) == [e2.value];
  }

  /** No prefix starts inside a value text `blank + value + blank` that begins at index
      `at` of s and is followed by the end of s or by a prefix. */
  lemma NoPrefixInValue(s: string, at: nat, text: string, before: string, value: string, after: string)
    requires text == before + value + after
    requires IsBlank(before) && IsBlank(after) && IsPlainValue(value)
    requires at + |text| <= |s| && s[at..at + |text|] == text
    requires at + |text| < |s| ==> s[at + |text|] != '/'
    requires after == [] ==> at + |text| == |s|
    ensures forall j :: at <= j < at + |text| ==> !PrefixAt(s, j)
  {
    forall j | at <= j < at + |text|
      ensures !PrefixAt(s, j)
    {
      var k := j - at;
      assert s[j] == text[k];
      if k < |before| {
        assert text[k] == before[k];
      } else if k < |before| + |value| {
        var m := k - |before|;
        assert text[k] == value[m];
        if m < |value| - 1 {
          assert text[k + 1] == value[m + 1];
          assert s[j + 1] == text[k + 1];
        } else if after != [] {
          assert text[k + 1] == after[0];
          assert s[j + 1] == text[k + 1];
        }
      } else {
        assert text[k] == after[k - |before| - |value|];
      }
    }
  }

  /** Round trip: the canonical form "n/N c/C" parses back to (N, C). */
  lemma ParseRoundTrip(name: string, cls: string)
    requires IsPlainValue(name) && IsPlainValue(cls)
    ensures Parse("n/" + name + " c/" + cls) == Some(JoinClass(name, cls))
  {
    ParseIgnoresWhitespace([], [], name, " ", [], cls, []);
    assert Spaced([], [], name, " ", [], cls, []) == "n/" + name + " c/" + cls;
  }

  /** Blank arguments are rejected. */
  lemma ParseRejectsBlank(args: string)
    requires IsBlank(args)
    ensures Parse(args) == None
  {
    HasValueIff(args, Name);
  }

  /** Arguments in which "n/" is never recognised are rejected. */
  lemma ParseRejectsMissingName(args: string)
    requires forall k :: PrefixAt(args, k) ==> args[k] != 'n'
    ensures Parse(args) == None
  {
    HasValueIff(args, Name);
  }

  /** Arguments in which "c/" is never recognised are rejected. */
  lemma ParseRejectsMissingClass(args: string)
    requires forall k :: PrefixAt(args, k) ==> args[k] != 'c'
    ensures Parse(args) == None
  {
    HasValueIff(args, ClassName);
  }

  /** Arguments with a non-whitespace character before every recognised prefix (a
      preamble) are rejected, whatever follows. */
  lemma ParseRejectsPreamble(args: string, k: nat)
    requires k < |args| && !IsWhitespace(args[k])
    requires forall j :: 0 <= j <= k ==> !PrefixAt(args, j)
    ensures Parse(args) == None
  {
    var first := NextPrefix(args, 0);
    assert args[..first][k] == args[k];
    TrimEmptyIffBlank(args[..first]);
  }

  lemma TestValuesArePlain()
    ensures IsPlainValue("Alice Tan") && IsPlainValue("CS2103T")
    ensures IsSeparator("   ") && IsSeparator("  ")
  {
  }

  lemma TestInputsAreLaidOut()
    ensures "n/" + "Alice Tan" + " c/" + "CS2103T" == "n/Alice Tan c/CS2103T"
    ensures Spaced("  ", [], "Alice Tan", "   ", [], "CS2103T", "  ") == "  n/Alice Tan   c/CS2103T  "
  {
  }

  /** The unit tests' inputs, one lemma each. */
  lemma ParsesBlankTestInput()
    ensures Parse("  ") == None
  {
    ParseRejectsBlank("  ");
  }

  lemma ParsesValidTestInput()
    ensures Parse("n/Alice Tan c/CS2103T") == Some(JoinClass("Alice Tan", "CS2103T"))
  {
    TestValuesArePlain();
    TestInputsAreLaidOut();
    ParseRoundTrip("Alice Tan", "CS2103T");
  }

  lemma ParsesSpacedTestInput()
    ensures Parse("  n/Alice Tan   c/CS2103T  ") == Some(JoinClass("Alice Tan", "CS2103T"))
  {
    TestValuesArePlain();
    TestInputsAreLaidOut();
    ParseIgnoresWhitespace("  ", [], "Alice Tan", "   ", [], "CS2103T", "  ");
  }

  lemma ParsesMissingNameTestInput()
    ensures Parse("c/CS2103T") == None
  {
    ParseRejectsMissingName("c/CS2103T");
  }

  lemma ParsesMissingClassTestInput()
    ensures Parse("n/Alice Tan") == None
  {
    ParseRejectsMissingClass("n/Alice Tan");
  }

  lemma ParsesPreambleTestInput()
    ensures Parse("invalid n/Alice Tan c/CS2103T") == None
  {
    ParseRejectsPreamble("invalid n/Alice Tan c/CS2103T", 0);
  }
}
