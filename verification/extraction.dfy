/** Learning the user's name from what they type.

    The user introduces themselves in Hinglish ("mera naam Asha hai",
    "my name is Asha"). The text is lower-cased, the words between the
    marker "mera naam" and the verb "hai" are cut out, stripped and
    title-cased. Two slightly different cuts exist: the one applied to every
    message, and the one the name gate of the reply loop applies when the
    name is still unknown.
 */
module Extraction {

  import opened Results
  import opened Text
  import opened Store

  /** "my name" */
  const MeraNaam: string := "mera naam"

  /** "is" */
  const Hai: string := "hai"

  /** The name the every-message rule extracts from a lower-cased text:
      `Between` cuts out the text after the first "mera naam" up to the
      nearest "hai", the next "mera naam" or the end. */
  function IntroName(text: string): string
    requires Contains(text, MeraNaam)
  {
    Title(Strip(Between(text, MeraNaam, Hai)))
  }

  /** The name the gate rule extracts from a lower-cased text: `BetweenOnce`
      cuts out everything after the first "mera naam" up to the nearest
      "hai" or the end, even across a second "mera naam". */
  function GateName(text: string): string
    requires Contains(text, MeraNaam)
  {
    Title(Strip(BetweenOnce(text, MeraNaam, Hai)))
  }

  /** True when the every-message rule fires: the lower-cased message contains
      "mera naam" and, anywhere at all, "hai". */
  predicate Introduces(input: string) {
    Contains(Lower(input), MeraNaam) && Contains(Lower(input), Hai)
  }

  /** Applying the every-message rule. When it fires, the stored name is
      replaced by the extracted one, whatever was stored before (a later
      introduction wins, and the new name may be empty); when it does not
      fire, the record is returned as it was. The conversation and the facts
      are never touched. */
  function RememberUserInfo(m: Memory, input: string): (r: Memory)
    ensures r.chatHistory == m.chatHistory && r.facts == m.facts
    ensures Introduces(input) ==> r.userName == Some(IntroName(Lower(input)))
    ensures !Introduces(input) ==> r == m
  {
    if Introduces(input) then m.(userName := Some(IntroName(Lower(input)))) else m
  }

  /** No proper suffix of "hai" starts like "mera naam", so a "hai" that
      begins before a "mera naam" also ends before it. */
  lemma HaiDoesNotRunIntoMeraNaam()
    ensures !RunsInto(Hai, MeraNaam)
  {
    forall k | 0 < k < |Hai|
      ensures !OverlapsAt(Hai, MeraNaam, k)
    {
      assert Hai[k + 0] != MeraNaam[0];
    }
  }

  /** The every-message cut stops at the nearest marker: neither "mera naam"
      nor "hai" starts anywhere inside it, and any other slice from the same
      place that avoids both markers and stops at one is the same slice. */
  lemma IntroCutIsNearest(text: string, other: string)
    requires Contains(text, MeraNaam)
    ensures var start := Find(text, MeraNaam).value + |MeraNaam|;
      var seg := Between(text, MeraNaam, Hai);
      && (forall j :: start <= j < start + |seg| ==> !OccursAt(text, MeraNaam, j) && !OccursAt(text, Hai, j))
      && (NearestSlice(text, start, other, MeraNaam, Hai) ==> other == seg)
  {
    var start := Find(text, MeraNaam).value + |MeraNaam|;
    var seg := Between(text, MeraNaam, Hai);
    HaiDoesNotRunIntoMeraNaam();
    if NearestSlice(text, start, other, MeraNaam, Hai) {
      NearestSliceIsUnique(text, start, other, seg, MeraNaam, Hai);
    }
  }

  /** A "hai" inside the name itself cuts it short: "Shaina" contains "hai". */
  lemma ShainaIsCutShort()
    ensures RememberUserInfo(Fresh, "Mera naam Shaina hai").userName == Some("S")
  {
    var text := "mera naam shaina hai";
    LowerShaina();
    ShainaSegment(text);
    TitleOfShortName();
    assert IntroName(text) == "S";
  }

  lemma LowerShaina()
    ensures Lower("Mera naam Shaina hai") == "mera naam shaina hai"
  {
  }

  lemma TitleOfShortName()
    ensures Title(Strip(" s")) == "S"
  {
    StripShort();
    assert Title("s")[0] == 'S';
  }

  lemma StripShort()
    ensures Strip(" s") == "s"
  {
    assert LeadingSpaces(" s") == 1 by {
      assert " s"[1..] == "s";
    }
    assert " s"[1..] == "s";
    assert TrailingSpaces("s") == 0;
  }

  lemma ShainaSegment(text: string)
    requires text == "mera naam shaina hai"
    ensures Contains(text, MeraNaam) && Contains(text, Hai)
    ensures Between(text, MeraNaam, Hai) == " s"
  {
    assert OccursAt(text, MeraNaam, 0);
    assert OccursAt(text, Hai, 11);
    assert Find(text, MeraNaam) == Some(0);
    var seg := Between(text, MeraNaam, Hai);
    AvoidanceBoundsSlice(text, 9, seg, Hai, 2);
    ShainaSegmentLength(text, seg);
    assert seg == text[9..11];
  }

  lemma ShainaSegmentLength(text: string, seg: string)
    requires text == "mera naam shaina hai"
    requires 9 + |seg| <= |text| && |seg| < 5
    requires 9 + |seg| == |text| || OccursAt(text, MeraNaam, 9 + |seg|) || OccursAt(text, Hai, 9 + |seg|)
    ensures |seg| == 2
  {
    assert text[9] == ' ' && text[10] == 's' && text[12] == 'a' && text[13] == 'i';
  }

  /** A later introduction replaces a name already known. */
  lemma LaterIntroductionOverwrites()
    ensures RememberUserInfo(Memory(Some("Asha"), [], []), "Mera naam Ravi hai").userName == Some("Ravi")
  {
    var text := "mera naam ravi hai";
    LowerRavi();
    RaviSegment(text);
    TitleOfRavi();
    assert IntroName(text) == "Ravi";
  }

  lemma LowerRavi()
    ensures Lower("Mera naam Ravi hai") == "mera naam ravi hai"
  {
  }

  lemma TitleOfRavi()
    ensures Title(Strip(" ravi ")) == "Ravi"
  {
    StripRavi();
    var t := Title("ravi");
    assert t[0] == 'R' && t[1] == 'a' && t[2] == 'v' && t[3] == 'i';
  }

  lemma StripRavi()
    ensures Strip(" ravi ") == "ravi"
  {
    assert LeadingSpaces(" ravi ") == 1 by {
      assert " ravi "[1..] == "ravi ";
    }
    assert TrailingSpaces("ravi ") == 1 by {
      assert "ravi "[..4] == "ravi";
    }
    assert " ravi "[1..] == "ravi ";
  }

  lemma RaviSegment(text: string)
    requires text == "mera naam ravi hai"
    ensures Contains(text, MeraNaam) && Contains(text, Hai)
    ensures Between(text, MeraNaam, Hai) == " ravi "
  {
    assert OccursAt(text, MeraNaam, 0);
    assert OccursAt(text, Hai, 15);
    assert Find(text, MeraNaam) == Some(0);
    var seg := Between(text, MeraNaam, Hai);
    AvoidanceBoundsSlice(text, 9, seg, Hai, 6);
    RaviSegmentLength(text, seg);
    assert seg == text[9..15];
  }

  lemma RaviSegmentLength(text: string, seg: string)
    requires text == "mera naam ravi hai"
    requires 9 + |seg| <= |text| && |seg| < 9
    requires 9 + |seg| == |text| || OccursAt(text, MeraNaam, 9 + |seg|) || OccursAt(text, Hai, 9 + |seg|)
    ensures |seg| == 6
  {
    assert text[9] == ' ' && text[10] == 'r' && text[11] == 'a' && text[12] == 'v';
    assert text[13] == 'i' && text[14] == ' ' && text[16] == 'a' && text[17] == 'i';
  }
}
