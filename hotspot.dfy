/**
 * Keycap hotspot classification (js/main.js, handleKeycapClick): the class
 * string of the clicked element is mapped to a section id by testing four
 * fixed substrings in priority order.
 */
module Hotspot {
  import opened Optional

  /** `sub` occurs in `s` starting at index `i`. */
  ghost predicate OccursAt(s: string, sub: string, i: int)
  {
    0 <= i && i + |sub| <= |s| && s[i..i + |sub|] == sub
  }

  /** JavaScript's `String.prototype.includes`, as a left-to-right scan. */
  function Contains(s: string, sub: string): (r: bool)
    ensures sub == [] ==> r
    ensures r ==> |sub| <= |s|
    ensures s == sub ==> r
    decreases |s|
  {
    if |s| < |sub| then false
    else if s[..|sub|] == sub then true
    else if s == [] then false
    else Contains(s[1..], sub)
  }

  /** The scan finds `sub` exactly when it occurs somewhere in `s`. */
  lemma {:induction false} ContainsIff(s: string, sub: string)
    ensures Contains(s, sub) <==> exists i :: OccursAt(s, sub, i)
    decreases |s|
  {
    if |s| < |sub| {
    } else if s[..|sub|] == sub {
      assert OccursAt(s, sub, 0);
    } else if s != [] {
      ContainsIff(s[1..], sub);
      if exists i :: OccursAt(s, sub, i) {
        var i :| OccursAt(s, sub, i);
        assert i != 0;
        assert s[1..][i - 1..i - 1 + |sub|] == s[i..i + |sub|];
        assert OccursAt(s[1..], sub, i - 1);
      }
      if exists j :: OccursAt(s[1..], sub, j) {
        var j :| OccursAt(s[1..], sub, j);
        assert s[j + 1..j + 1 + |sub|] == s[1..][j..j + |sub|];
        assert OccursAt(s, sub, j + 1);
      }
    }
  }

  /** The class markers tested by the click handler, highest priority first. */
  const Markers: seq<string> := ["top-about", "top-projects", "mid-experience", "bottom-contact"]

  /** The section id chosen for the marker at the same index. */
  const SectionIds: seq<string> := ["about", "projects", "experience", "contact"]

  /**
   * The section a hotspot with class string `className` opens, or `None`
   * when no marker occurs in it. The result is the section of the FIRST
   * marker, in priority order, that occurs in the class string.
   */
  function HotspotSection(className: string): (r: Option<string>)
    ensures r.None? <==> forall k :: 0 <= k < |Markers| ==> !Contains(className, Markers[k])
    ensures forall k :: 0 <= k < |Markers| ==>
      (r == Some(SectionIds[k]) <==>
        Contains(className, Markers[k]) && forall j :: 0 <= j < k ==> !Contains(className, Markers[j]))
  {
    if Contains(className, Markers[0]) then Some(SectionIds[0])
    else if Contains(className, Markers[1]) then Some(SectionIds[1])
    else if Contains(className, Markers[2]) then Some(SectionIds[2])
    else if Contains(className, Markers[3]) then Some(SectionIds[3])
    else None
  }

  /** A class string with `top-about` anywhere in it opens the about section,
      whatever other markers it also carries. */
  lemma AboutHasPriority(className: string, i: int)
    requires OccursAt(className, "top-about", i)
    ensures HotspotSection(className) == Some("about")
  {
    ContainsIff(className, "top-about");
  }

  /** A class string carrying no marker at all opens nothing. */
  lemma NoMarkerNoSection(className: string)
    requires forall k, i :: 0 <= k < |Markers| ==> !OccursAt(className, Markers[k], i)
    ensures HotspotSection(className) == None
  {
    forall k | 0 <= k < |Markers| ensures !Contains(className, Markers[k]) {
      ContainsIff(className, Markers[k]);
    }
  }

  /** A wrapper classed both `top-about` and `top-projects` opens about. */
  lemma BothAboutAndProjects()
    ensures HotspotSection("keycap-wrapper top-about top-projects") == Some("about")
  {
    var prefix, suffix := "keycap-wrapper ", " top-projects";
    var c := prefix + "top-about" + suffix;
    assert c == "keycap-wrapper top-about top-projects";
    assert c[|prefix|..|prefix| + 9] == "top-about";
    AboutHasPriority(c, |prefix|);
  }
}
