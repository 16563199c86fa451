/**
 * The two pieces of logic in the dashboard sidebar: which navigation entry
 * is highlighted for the current pathname, and the user's initials shown
 * in the avatar.
 */
module Sidebar {
  import opened Text

  /** A navigation entry; `title` is the entry's `label` (a reserved word in Dafny). */
  datatype NavItem = NavItem(title: string, href: string)

  const DashboardHref: string := "/dashboard"

  /** The navigation entries, in display order. */
  const NavItems: seq<NavItem> := [
    NavItem("Calm Center", DashboardHref),
    NavItem("Inventory", "/dashboard/inventory"),
    NavItem("Log Usage", "/dashboard/usage"),
    NavItem("Alerts", "/dashboard/alerts"),
    NavItem("Audit Log", "/dashboard/audit"),
    NavItem("Team", "/dashboard/team"),
    NavItem("Settings", "/dashboard/settings")
  ]

  /**
   * `isActive(href)`: the dashboard entry only on the exact dashboard path,
   * every other entry whenever the pathname starts with its href.
   */
  predicate IsActive(pathname: string, href: string) {
    if href == DashboardHref then pathname == DashboardHref
    else StartsWith(pathname, href)
  }

  /** The matching is a plain string prefix, not a path-segment prefix. */
  lemma TeamworkActivatesTeam()
    ensures NavItems[5].title == "Team"
    ensures IsActive("/dashboard/teamwork", NavItems[5].href)
    ensures !IsActive("/dashboard/teamwork", NavItems[0].href)
  {
    assert "/dashboard/teamwork"[..15] == "/dashboard/team";
  }

  /** Two prefixes of one string: the shorter is a prefix of the longer. */
  lemma PrefixesNest(s: string, a: string, b: string)
    requires StartsWith(s, a) && StartsWith(s, b) && |a| <= |b|
    ensures StartsWith(b, a)
  {
    assert b[..|a|] == s[..|b|][..|a|];
  }

  /** Strings that differ at a common index are not prefixes of one another. */
  lemma DifferAt(a: string, b: string, k: nat)
    requires k < |a| && k < |b| && a[k] != b[k]
    ensures !StartsWith(a, b) && !StartsWith(b, a)
  {
  }

  /** No href other than the dashboard's is a prefix of another href. */
  lemma HrefsPrefixFree(i: nat, j: nat)
    requires 1 <= i < |NavItems| && 1 <= j < |NavItems| && i != j
    ensures !StartsWith(NavItems[j].href, NavItems[i].href)
  {
    var a, b := NavItems[i].href, NavItems[j].href;
    if {3, 4} == {i, j} {
      DifferAt(a, b, 12);
    } else {
      DifferAt(a, b, 11);
    }
  }

  /** For any pathname, at most one navigation entry is highlighted. */
  lemma {:induction false} AtMostOneActive(pathname: string, i: nat, j: nat)
    requires i < |NavItems| && j < |NavItems|
    requires IsActive(pathname, NavItems[i].href) && IsActive(pathname, NavItems[j].href)
    ensures i == j
  {
    var a, b := NavItems[i].href, NavItems[j].href;
    if i != j {
      if i == 0 || j == 0 {
        assert false;
      } else if |a| <= |b| {
        PrefixesNest(pathname, a, b);
        HrefsPrefixFree(i, j);
      } else {
        PrefixesNest(pathname, b, a);
        HrefsPrefixFree(j, i);
      }
    }
  }

  /** `words.map(n => n[0]).join("")`: an empty word contributes nothing. */
  function FirstLetters(words: seq<string>): string
    decreases |words|
  {
    if |words| == 0 then ""
    else (if |words[0]| > 0 then [words[0][0]] else "") + FirstLetters(words[1..])
  }

  /** The avatar initials: `userName.split(" ").map(n => n[0]).join("").toUpperCase()`. */
  function Initials(userName: string): string {
    Upper(FirstLetters(Split(userName, ' ')))
  }

  /** The non-empty words, in order. */
  function NonEmpty(words: seq<string>): (r: seq<string>)
    decreases |words|
  {
    if |words| == 0 then []
    else (if |words[0]| > 0 then [words[0]] else []) + NonEmpty(words[1..])
  }

  lemma {:induction false} FirstLettersOfNonEmpty(words: seq<string>)
    ensures |FirstLetters(words)| == |NonEmpty(words)|
    ensures forall k :: 0 <= k < |NonEmpty(words)| ==>
      |NonEmpty(words)[k]| > 0 && FirstLetters(words)[k] == NonEmpty(words)[k][0]
    decreases |words|
  {
    if |words| > 0 {
      FirstLettersOfNonEmpty(words[1..]);
    }
  }

  /**
   * The initials hold one upper-cased letter per non-empty space-separated
   * word of the name, in word order.
   */
  lemma {:induction false} InitialsPerWord(userName: string)
    ensures var words := NonEmpty(Split(userName, ' '));
      && |Initials(userName)| == |words|
      && forall k :: 0 <= k < |words| ==> |words[k]| > 0 && Initials(userName)[k] == UpperChar(words[k][0])
  {
    FirstLettersOfNonEmpty(Split(userName, ' '));
  }

  /** A one-word name yields its first character, upper-cased. */
  lemma OneWordInitials(userName: string)
    requires userName != "" && ' ' !in userName
    ensures Initials(userName) == [UpperChar(userName[0])]
  {
    SplitJoin([userName], ' ');
    assert Split(userName, ' ') == [userName];
    assert FirstLetters([userName]) == [userName[0]] + FirstLetters([]);
  }

  /** Runs of spaces contribute nothing: extra separators do not change the initials. */
  lemma {:induction false} EmptyWordsIgnored(words: seq<string>)
    ensures FirstLetters(words) == FirstLetters(NonEmpty(words))
    decreases |words|
  {
    if |words| > 0 {
      EmptyWordsIgnored(words[1..]);
      var first := if |words[0]| > 0 then [words[0]] else [];
      assert NonEmpty(words) == first + NonEmpty(words[1..]);
      if |words[0]| > 0 {
        var ne := first + NonEmpty(words[1..]);
        assert ne[0] == words[0] && ne[1..] == NonEmpty(words[1..]);
        assert FirstLetters(ne) == [words[0][0]] + FirstLetters(ne[1..]);
      } else {
        assert NonEmpty(words) == NonEmpty(words[1..]);
      }
    }
  }
}
