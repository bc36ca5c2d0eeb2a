/**
  The profile screen: the avatar initials computed from the user's name and
  the Save action of the edit sheet.
 */
module Profile {
  import opened Text

  datatype UserProfile = UserProfile(
    name: string,
    email: string,
    phoneNumber: string,
    membershipLevel: string,
    totalOrders: int,
    favoriteStore: string,
    joinDate: string)

  /** `first?.uppercased() ?? ""` on one name component. */
  function InitialOf(component: string): (r: string)
    ensures |r| <= 1
    ensures |component| > 0 <==> |r| == 1
  {
    if |component| == 0 then "" else [UpperChar(component[0])]
  }

  /**
    `initials`: the first letter of the first space-separated component,
    then the first letter of the last component when there is more than one.
   */
  function Initials(name: string): (r: string)
    ensures |r| <= 2
    ensures |name| == 0 ==> r == ""
    ensures ' ' !in name ==> |r| <= 1
  {
    SplitCountIffSpace(name);
    var components := SplitSpaces(name);
    var firstInitial := InitialOf(components[0]);
    var lastInitial := if |components| > 1 then InitialOf(components[|components| - 1]) else "";
    firstInitial + lastInitial
  }

  /** The index of the last space of `s`, or -1 when there is none. */
  function LastSpace(s: string): (r: int)
    ensures -1 <= r < |s|
    ensures r >= 0 ==> s[r] == ' '
    ensures forall k :: r < k < |s| ==> s[k] != ' '
    decreases |s|
  {
    if |s| == 0 then -1
    else
      var k := LastSpace(s[1..]);
      assert forall j :: 1 <= j < |s| ==> s[j] == s[1..][j - 1];
      if k >= 0 then k + 1 else if s[0] == ' ' then 0 else -1
  }

  /** There is no last space exactly when there is no space. */
  lemma {:induction false} NoLastSpace(s: string)
    ensures LastSpace(s) == -1 <==> ' ' !in s
  {
    if ' ' in s {
      var i :| 0 <= i < |s| && s[i] == ' ';
    }
  }

  /**
    The initials read straight off the name: its first character unless that
    is a space, and the character after its last space if there is one.
   */
  function ScannedInitials(name: string): string
  {
    var first := if |name| > 0 && name[0] != ' ' then [UpperChar(name[0])] else "";
    var k := LastSpace(name);
    var last := if 0 <= k && k + 1 < |name| then [UpperChar(name[k + 1])] else "";
    first + last
  }

  /** The first component is the text before the first space. */
  lemma FirstComponent(s: string)
    ensures |SplitSpaces(s)[0]| > 0 <==> |s| > 0 && s[0] != ' '
    ensures |SplitSpaces(s)[0]| > 0 ==> SplitSpaces(s)[0][0] == s[0]
  {
  }

  /** One step of `SplitSpaces`: a leading space starts a new component. */
  lemma SplitStep(s: string)
    requires |s| > 0
    ensures var rest := SplitSpaces(s[1..]);
            SplitSpaces(s) == if s[0] == ' ' then [""] + rest else [[s[0]] + rest[0]] + rest[1..]
  {
  }

  /** The last component is the text after the last space. */
  ghost predicate LastPieceAfterLastSpace(s: string)
  {
    var c := SplitSpaces(s);
    var k := LastSpace(s);
    var last := c[|c| - 1];
    |last| == |s| - k - 1 && forall i :: 0 <= i < |last| ==> last[i] == s[k + 1 + i]
  }

  /** Every text's last component is the text after its last space. */
  lemma {:induction false} LastComponent(s: string)
    ensures LastPieceAfterLastSpace(s)
    decreases |s|
  {
    if |s| == 0 {
      LastComponentEmpty(s);
    } else {
      LastComponent(s[1..]);
      LastComponentStep(s);
    }
  }

  /** The inductive step: from the text without its first character to the whole text. */
  lemma LastComponentStep(s: string)
    requires |s| > 0 && LastPieceAfterLastSpace(s[1..])
    ensures LastPieceAfterLastSpace(s)
  {
    if LastSpace(s[1..]) >= 0 {
      LastComponentSpaceLater(s);
    } else if s[0] == ' ' {
      LastComponentSpaceFirst(s);
    } else {
      LastComponentNoSpace(s);
    }
  }

  lemma LastComponentEmpty(s: string)
    requires |s| == 0
    ensures LastPieceAfterLastSpace(s)
  {
    var c := SplitSpaces(s);
    assert c == [""];
    assert LastSpace(s) == -1;
    assert c[|c| - 1] == s;
    assert s[0..] == s;
  }

  lemma LastComponentSpaceLater(s: string)
    requires |s| > 0 && LastSpace(s[1..]) >= 0
    requires LastPieceAfterLastSpace(s[1..])
    ensures LastPieceAfterLastSpace(s)
  {
    NoLastSpace(s[1..]);
    SplitCountIffSpace(s[1..]);
    LastPieceShift(s);
    LastSpaceShift(s);
    var k := LastSpace(s[1..]);
    var rest := SplitSpaces(s[1..]);
    var last := rest[|rest| - 1];
    forall i | 0 <= i < |last|
      ensures last[i] == s[k + 2 + i]
    {
      assert s[1..][k + 1 + i] == s[k + 2 + i];
    }
  }

  /** A space after the first character keeps its place, one further on. */
  lemma LastSpaceShift(s: string)
    requires |s| > 0 && LastSpace(s[1..]) >= 0
    ensures LastSpace(s) == LastSpace(s[1..]) + 1
  {
  }

  /** A later space leaves the last piece where it was. */
  lemma LastPieceShift(s: string)
    requires |s| > 0 && |SplitSpaces(s[1..])| > 1
    ensures var c := SplitSpaces(s); var rest := SplitSpaces(s[1..]);
            c[|c| - 1] == rest[|rest| - 1]
  {
    SplitStep(s);
  }

  lemma LastComponentSpaceFirst(s: string)
    requires |s| > 0 && LastSpace(s[1..]) == -1 && s[0] == ' '
    requires LastPieceAfterLastSpace(s[1..])
    ensures LastPieceAfterLastSpace(s)
  {
    SplitStep(s);
    assert LastSpace(s) == 0;
  }

  lemma LastComponentNoSpace(s: string)
    requires |s| > 0 && LastSpace(s[1..]) == -1 && s[0] != ' '
    ensures LastPieceAfterLastSpace(s)
  {
    WholeNameNoSpace(s);
    assert LastSpace(s) == -1;
    assert s[0..] == s;
  }

  lemma WholeNameNoSpace(s: string)
    requires |s| > 0 && LastSpace(s[1..]) == -1 && s[0] != ' '
    ensures var c := SplitSpaces(s); |c| == 1 && c[0] == s
  {
    SplitStep(s);
    NoLastSpace(s[1..]);
    SplitCountIffSpace(s[1..]);
    SplitJoin(s[1..]);
    var rest := SplitSpaces(s[1..]);
    assert |rest| == 1;
    assert rest[0] == s[1..];
    assert s == [s[0]] + s[1..];
  }

  /** The first initial is the name's first character, unless that is a space. */
  lemma {:induction false} FirstInitialScanned(name: string)
    ensures InitialOf(SplitSpaces(name)[0])
            == if |name| > 0 && name[0] != ' ' then [UpperChar(name[0])] else ""
  {
    FirstComponent(name);
  }

  /** A name has a second component exactly when it has a space. */
  lemma {:induction false} SecondComponentIffSpace(name: string)
    ensures |SplitSpaces(name)| > 1 <==> LastSpace(name) >= 0
  {
    NoLastSpace(name);
    SplitCountIffSpace(name);
  }

  /** The last initial is the character after the last space, if there is one. */
  lemma {:induction false} LastInitialScanned(name: string)
    requires LastSpace(name) >= 0
    ensures var c := SplitSpaces(name);
            var k := LastSpace(name);
            InitialOf(c[|c| - 1]) == if k + 1 < |name| then [UpperChar(name[k + 1])] else ""
  {
    LastComponent(name);
  }

  /** The initials computed through the components are the ones read off the name. */
  lemma {:induction false} InitialsAreScanned(name: string)
    ensures Initials(name) == ScannedInitials(name)
  {
    FirstInitialScanned(name);
    SecondComponentIffSpace(name);
    if LastSpace(name) >= 0 {
      LastInitialScanned(name);
    }
  }

  /** An empty last component, as after a trailing space, adds no letter. */
  lemma TrailingSpaceAddsNothing(name: string)
    requires |name| > 0 && name[|name| - 1] == ' '
    ensures Initials(name) == InitialOf(SplitSpaces(name)[0])
  {
    LastComponent(name);
  }

  /** A two-part name: its first letter and the letter after its last space. */
  lemma {:induction false} InitialsOfTwoParts(name: string, k: int)
    requires 0 < k < |name| - 1 && name[0] != ' ' && name[k] == ' '
    requires forall j :: k < j < |name| ==> name[j] != ' '
    ensures Initials(name) == [UpperChar(name[0]), UpperChar(name[k + 1])]
  {
    InitialsAreScanned(name);
    assert LastSpace(name) == k;
  }

  /** The name the profile screen starts with. */
  lemma InitialsOfSeedName()
    ensures Initials("Burak Selcuk") == "BS"
  {
    InitialsOfTwoParts("Burak Selcuk", 5);
  }

  /** The name of the Turkish copy of the profile screen. */
  lemma InitialsOfTurkishSeedName()
    ensures Initials("Ahmet Yılmaz") == "AY"
  {
    InitialsOfTwoParts("Ahmet Yılmaz", 5);
  }

  /** A single word gives its first letter, upper-cased. */
  lemma {:induction false} InitialsOfWord(name: string)
    requires |name| > 0 && forall j :: 0 <= j < |name| ==> name[j] != ' '
    ensures Initials(name) == [UpperChar(name[0])]
  {
    InitialsAreScanned(name);
    assert LastSpace(name) == -1;
  }

  /** A single word followed by one space gives the word's letter only. */
  lemma {:induction false} InitialsOfWordAndSpace(name: string)
    requires |name| > 1 && name[0] != ' ' && name[|name| - 1] == ' '
    ensures Initials(name) == [UpperChar(name[0])]
  {
    InitialsAreScanned(name);
    assert LastSpace(name) == |name| - 1;
  }

  /** One word gives one letter; a trailing space adds nothing. */
  lemma InitialsOfOneWord()
    ensures Initials("burak") == "B"
    ensures Initials("Burak ") == "B"
  {
    InitialsOfWord("burak");
    InitialsOfWordAndSpace("Burak ");
  }

  /** The Save button: copies the three edited fields and nothing else. */
  function Save(user: UserProfile, editedName: string, editedEmail: string, editedPhone: string): (r: UserProfile)
    ensures r.name == editedName && r.email == editedEmail && r.phoneNumber == editedPhone
    ensures r.membershipLevel == user.membershipLevel && r.totalOrders == user.totalOrders
    ensures r.favoriteStore == user.favoriteStore && r.joinDate == user.joinDate
  {
    user.(name := editedName, email := editedEmail, phoneNumber := editedPhone)
  }

  /** The sheet opens with the current values, so saving it untouched changes nothing. */
  lemma SaveUneditedIsIdentity(user: UserProfile)
    ensures Save(user, user.name, user.email, user.phoneNumber) == user
  {
  }

  /** A second save overrides the first. */
  lemma SaveTwice(user: UserProfile, n1: string, e1: string, p1: string, n2: string, e2: string, p2: string)
    ensures Save(Save(user, n1, e1, p1), n2, e2, p2) == Save(user, n2, e2, p2)
  {
  }
}
