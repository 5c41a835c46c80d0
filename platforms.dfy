/** Platform identifiers: the toggle behind the form's platform buttons and
    the display lookups of the post list. */
module Platforms {
  import opened Seqs

  /** The buttons the form offers (`platformsList`). */
  const PlatformsList: seq<string> := ["twitter", "facebook", "instagram", "linkedin"]

  /** The test "is not `platform`" (`p => p !== platform`). */
  function Other(platform: string): string -> bool
  {
    p => p != platform
  }

  /** `togglePlatform`: remove the platform if it is selected, else append it. */
  function Toggle(selected: seq<string>, platform: string): (r: seq<string>)
    ensures platform in r <==> platform !in selected
    ensures forall q :: q != platform ==> (q in r <==> q in selected)
  {
    if platform in selected then Filter(selected, Other(platform)) else selected + [platform]
  }

  ghost predicate NoDuplicates(s: seq<string>)
  {
    forall i, j :: 0 <= i < j < |s| ==> s[i] != s[j]
  }

  /** An unselected platform is appended at the end; nothing else moves. */
  lemma ToggleAbsent(selected: seq<string>, platform: string)
    requires platform !in selected
    ensures |Toggle(selected, platform)| == |selected| + 1
    ensures Toggle(selected, platform)[..|selected|] == selected
    ensures Toggle(selected, platform)[|selected|] == platform
  {
  }

  /** A selected platform loses every occurrence, every other platform keeps
      its occurrences, and the rest stay in their order. */
  lemma TogglePresent(selected: seq<string>, platform: string)
    requires platform in selected
    ensures platform !in Toggle(selected, platform)
    ensures IsSubsequence(Toggle(selected, platform), selected)
    ensures forall q :: q != platform ==> multiset(Toggle(selected, platform))[q] == multiset(selected)[q]
  {
    var r := Toggle(selected, platform);
    FilterIsSubsequence(selected, Other(platform));
    forall q | q != platform ensures multiset(r)[q] == multiset(selected)[q] {
      FilterCount(selected, Other(platform), q);
    }
  }

  /** A selection without duplicates stays without duplicates. */
  lemma ToggleKeepsNoDuplicates(selected: seq<string>, platform: string)
    requires NoDuplicates(selected)
    ensures NoDuplicates(Toggle(selected, platform))
  {
    if platform in selected {
      var r := Toggle(selected, platform);
      forall q ensures multiset(r)[q] <= multiset(selected)[q] {
        FilterCount(selected, Other(platform), q);
      }
      forall i, j | 0 <= i < j < |r| ensures r[i] != r[j] {
        if r[i] == r[j] {
          CountTwo(r, i, j);
          NoDuplicatesCount(selected, r[i]);
        }
      }
    }
  }

  /** Two positions holding one value make it occur at least twice. */
  lemma CountTwo(s: seq<string>, i: int, j: int)
    requires 0 <= i < j < |s| && s[i] == s[j]
    ensures multiset(s)[s[i]] >= 2
  {
    assert s == s[..j] + [s[j]] + s[j + 1..];
    assert s[i] in s[..j];
  }

  lemma {:induction false} NoDuplicatesCount(s: seq<string>, q: string)
    requires NoDuplicates(s)
    ensures multiset(s)[q] <= 1
  {
    if s != [] {
      NoDuplicatesCount(s[1..], q);
      assert s == [s[0]] + s[1..];
      if s[0] == q {
        assert q !in s[1..];
      }
    }
  }

  /** Pressing the button of an unselected platform twice restores the selection. */
  lemma ToggleTwiceRestores(selected: seq<string>, platform: string)
    requires platform !in selected
    ensures Toggle(Toggle(selected, platform), platform) == selected
  {
    var once := selected + [platform];
    assert platform in once;
    FilterAppend(selected, [platform], Other(platform));
    FilterAllKept(selected, Other(platform));
  }

  /** `getPlatformIcon`: the icon class of a known platform, the globe otherwise. */
  function PlatformIcon(platformId: string): (icon: string)
    ensures platformId == "twitter" ==> icon == "fab fa-twitter"
    ensures platformId == "facebook" ==> icon == "fab fa-facebook-f"
    ensures platformId == "instagram" ==> icon == "fab fa-instagram"
    ensures platformId == "linkedin" ==> icon == "fab fa-linkedin-in"
    ensures platformId !in PlatformsList ==> icon == "fas fa-globe"
  {
    var icons := map["twitter" := "fab fa-twitter", "facebook" := "fab fa-facebook-f",
                     "instagram" := "fab fa-instagram", "linkedin" := "fab fa-linkedin-in"];
    OrElse(if platformId in icons then icons[platformId] else "", "fas fa-globe")
  }

  /** `getPlatformName`: the display name of a known platform, the id itself otherwise. */
  function PlatformName(platformId: string): (name: string)
    ensures platformId == "twitter" ==> name == "Twitter/X"
    ensures platformId == "facebook" ==> name == "Facebook"
    ensures platformId == "instagram" ==> name == "Instagram"
    ensures platformId == "linkedin" ==> name == "LinkedIn"
    ensures platformId !in PlatformsList ==> name == platformId
  {
    var names := map["twitter" := "Twitter/X", "facebook" := "Facebook",
                     "instagram" := "Instagram", "linkedin" := "LinkedIn"];
    OrElse(if platformId in names then names[platformId] else "", platformId)
  }

  /** `a || b` on strings, where a missing key (`undefined`) and `""` are falsy. */
  function OrElse(a: string, b: string): string
  {
    if a != "" then a else b
  }
}
