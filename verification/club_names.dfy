/** The club-name normaliser: removing " Football Club" and then
    " Association Football Club" from club names, ignoring case. */
module ClubNames {

  const FootballClub: string := " Football Club"
  const AssociationFootballClub: string := " Association Football Club"

  /** Case folding of the ASCII letters. */
  function Fold(c: char): char {
    if 'A' <= c <= 'Z' then (c as int + 32) as char else c
  }

  /** Whether the pattern occurs at position i of s, ignoring case. */
  predicate MatchesAt(s: string, pat: string, i: nat) {
    i + |pat| <= |s| && forall k :: 0 <= k < |pat| ==> Fold(s[i + k]) == Fold(pat[k])
  }

  predicate Occurs(s: string, pat: string) {
    exists i: nat :: i + |pat| <= |s| && MatchesAt(s, pat, i)
  }

  /** Replacing every occurrence of the pattern by nothing, scanning from the
      left and resuming after each removed occurrence (`str.replace` with a
      literal pattern). */
  function RemoveAll(s: string, pat: string): (r: string)
    requires |pat| > 0
    ensures |r| <= |s|
    decreases |s|
  {
    if |s| == 0 then []
    else if MatchesAt(s, pat, 0) then RemoveAll(s[|pat|..], pat)
    else [s[0]] + RemoveAll(s[1..], pat)
  }

  lemma ShiftMatch(s: string, pat: string, i: nat)
    requires |s| > 0
    ensures MatchesAt(s[1..], pat, i) <==> MatchesAt(s, pat, i + 1)
  {
  }

  lemma {:induction false} UnchangedWithoutOccurrence(s: string, pat: string)
    requires |pat| > 0
    requires !Occurs(s, pat)
    ensures RemoveAll(s, pat) == s
    decreases |s|
  {
    if |s| > 0 {
      assert !MatchesAt(s, pat, 0);
      if Occurs(s[1..], pat) {
        var i: nat :| i + |pat| <= |s[1..]| && MatchesAt(s[1..], pat, i);
        ShiftMatch(s, pat, i);
        assert false;
      }
      UnchangedWithoutOccurrence(s[1..], pat);
      assert s == [s[0]] + s[1..];
    }
  }

  lemma {:induction false} OccurrenceShortens(s: string, pat: string)
    requires |pat| > 0
    requires Occurs(s, pat)
    ensures |RemoveAll(s, pat)| < |s|
    decreases |s|
  {
    if !MatchesAt(s, pat, 0) {
      var i: nat :| i + |pat| <= |s| && MatchesAt(s, pat, i);
      ShiftMatch(s, pat, i - 1);
      assert MatchesAt(s[1..], pat, i - 1);
      OccurrenceShortens(s[1..], pat);
    }
  }

  /** A name changes exactly when the pattern occurs in it, and then it
      gets shorter. */
  lemma RemoveAllChangesIffOccurs(s: string, pat: string)
    requires |pat| > 0
    ensures RemoveAll(s, pat) == s <==> !Occurs(s, pat)
    ensures Occurs(s, pat) ==> |RemoveAll(s, pat)| < |s|
  {
    if Occurs(s, pat) {
      OccurrenceShortens(s, pat);
    } else {
      UnchangedWithoutOccurrence(s, pat);
    }
  }

  /** Text before the first occurrence is kept as it is. */
  lemma {:induction false} RemoveAllKeepsPrefix(a: string, b: string, pat: string)
    requires |pat| > 0
    requires forall i: nat :: i < |a| ==> !MatchesAt(a + b, pat, i)
    ensures RemoveAll(a + b, pat) == a + RemoveAll(b, pat)
    decreases |a|
  {
    var s := a + b;
    if |a| > 0 {
      assert !MatchesAt(s, pat, 0);
      assert s[1..] == a[1..] + b;
      forall i: nat | i < |a[1..]| ensures !MatchesAt(a[1..] + b, pat, i) {
        ShiftMatch(s, pat, i);
      }
      RemoveAllKeepsPrefix(a[1..], b, pat);
      assert a == [a[0]] + a[1..];
    } else {
      assert s == b;
    }
  }

  /** A name that ends with the pattern and has no other occurrence of it
      loses exactly that suffix. */
  lemma {:induction false} RemoveAllStripsSuffix(base: string, pat: string)
    requires |pat| > 0
    requires forall i: nat :: i < |base| ==> !MatchesAt(base + pat, pat, i)
    ensures RemoveAll(base + pat, pat) == base
    decreases |base|
  {
    var s := base + pat;
    if |base| == 0 {
      assert s == pat && MatchesAt(s, pat, 0);
      assert s[|pat|..] == [];
    } else {
      assert !MatchesAt(s, pat, 0);
      assert s[1..] == base[1..] + pat;
      forall i: nat | i < |base[1..]| ensures !MatchesAt(base[1..] + pat, pat, i) {
        ShiftMatch(s, pat, i);
      }
      RemoveAllStripsSuffix(base[1..], pat);
      assert base == [base[0]] + base[1..];
    }
  }

  /** " Association Football Club" ends with " Football Club", so a name
      holding the longer suffix holds the shorter one too. */
  lemma AssociationHoldsFootball(s: string)
    ensures Occurs(s, AssociationFootballClub) ==> Occurs(s, FootballClub)
  {
    if Occurs(s, AssociationFootballClub) {
      var i: nat :| i + |AssociationFootballClub| <= |s| && MatchesAt(s, AssociationFootballClub, i);
      assert AssociationFootballClub[12..] == FootballClub;
      assert MatchesAt(s, FootballClub, i + 12) by {
        forall k | 0 <= k < |FootballClub| ensures Fold(s[i + 12 + k]) == Fold(FootballClub[k]) {
          assert Fold(s[i + (12 + k)]) == Fold(AssociationFootballClub[12 + k]);
        }
      }
    }
  }

  /** `clean_pl_clubs` on one name: the name changes exactly when it holds
      " Football Club", ignoring case, and it then gets shorter. */
  function CleanClubName(name: string): (r: string)
    ensures r == name <==> !Occurs(name, FootballClub)
    ensures Occurs(name, FootballClub) ==> |r| < |name|
  {
    var once := RemoveAll(name, FootballClub);
    RemoveAllChangesIffOccurs(name, FootballClub);
    RemoveAllChangesIffOccurs(once, AssociationFootballClub);
    AssociationHoldsFootball(name);
    RemoveAll(once, AssociationFootballClub)
  }

  /** No " Football Club" starts inside "X Association Football". */
  lemma NoEarlyFootballClub(a: string, b: string)
    requires a == "X Association Football" && b == " Football Club Club"
    ensures forall i: nat :: i < |a| ==> !MatchesAt(a + b, FootballClub, i)
  {
    forall i: nat | i < |a| ensures !MatchesAt(a + b, FootballClub, i) {
      var s := a + b;
      assert s[i] == a[i];
      if i == 1 {
        assert Fold(s[2]) != Fold(FootballClub[1]);
      } else if i == 13 {
        assert Fold(s[23]) != Fold(FootballClub[10]);
      } else {
        assert a[i] != ' ';
      }
    }
  }

  lemma FirstPassExample(a: string, b: string, name: string)
    requires a == "X Association Football" && b == " Football Club Club" && name == a + b
    ensures RemoveAll(name, FootballClub) == a + " Club"
  {
    NoEarlyFootballClub(a, b);
    RemoveAllKeepsPrefix(a, b, FootballClub);
    assert MatchesAt(b, FootballClub, 0);
    assert b[|FootballClub|..] == " Club";
    RemoveAllChangesIffOccurs(" Club", FootballClub);
  }

  lemma SecondPassExample(name: string)
    requires name == "X Association Football" + " Club"
    ensures RemoveAll(name, AssociationFootballClub) == "X"
  {
    assert name == "X" + AssociationFootballClub;
    assert Fold(name[0]) != Fold(AssociationFootballClub[0]);
    RemoveAllStripsSuffix("X", AssociationFootballClub);
  }

  /** The second replacement is not dead: the first one can leave a
      " Association Football Club" behind that the second then removes. */
  lemma SecondReplacementCanApply(name: string)
    requires name == "X Association Football Football Club Club"
    ensures RemoveAll(name, FootballClub) == "X Association Football" + " Club"
    ensures CleanClubName(name) == "X"
  {
    FirstPassExample("X Association Football", " Football Club Club", name);
    SecondPassExample(RemoveAll(name, FootballClub));
  }
}
