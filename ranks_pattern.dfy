/**
 * The one regular expression the header classifier applies,
 * ` - Ranks - (.*?) - (.*?) - Rank`, searched for as `re.search` does:
 * leftmost start first, then each lazy group as short as the rest of the
 * pattern permits, the first group before the second. Neither group may
 * hold a line feed.
 */
module RanksPattern {
  import opened Wrappers
  import opened Strings

  const LEAD := " - Ranks - "
  const MID := " - "
  const TAIL := " - Rank"

  /** The two captured groups: the group label, then the course name. */
  datatype Captures = Captures(group: string, course: string)

  /** The text the whole pattern matched, rebuilt from its captures. */
  function Instance(c: Captures): string
  {
    LEAD + c.group + MID + c.course + TAIL
  }

  /** `(.*?) - Rank` anchored at the start of `t`, the lazy group currently being `t[..k]`. */
  function Second(t: string, k: nat): Option<string>
    requires k <= |t|
    decreases |t| - k
  {
    if StartsWith(t[k..], TAIL) then Some(t[..k])
    else if k == |t| || t[k] == '\n' then None
    else Second(t, k + 1)
  }

  /** `(.*?) - (.*?) - Rank` anchored at the start of `u`, the first lazy group being `u[..k]`. */
  function First(u: string, k: nat): Option<Captures>
    requires k <= |u|
    decreases |u| - k
  {
    if StartsWith(u[k..], MID) && Second(u[k + |MID|..], 0).Some? then
      Some(Captures(u[..k], Second(u[k + |MID|..], 0).value))
    else if k == |u| || u[k] == '\n' then None
    else First(u, k + 1)
  }

  /** The whole pattern tried at start positions `i`, `i + 1`, ... of `text`. */
  function SearchFrom(text: string, i: nat): Option<Captures>
    requires i <= |text|
    decreases |text| - i
  {
    if StartsWith(text[i..], LEAD) && First(text[i + |LEAD|..], 0).Some? then
      First(text[i + |LEAD|..], 0)
    else if i == |text| then None
    else SearchFrom(text, i + 1)
  }

  /** `re.search(r' - Ranks - (.*?) - (.*?) - Rank', text)`, as its two groups. */
  function Search(text: string): Option<Captures>
  {
    SearchFrom(text, 0)
  }

  lemma {:induction false} SecondSound(t: string, k: nat)
    requires k <= |t| && NoNewline(t[..k])
    ensures Second(t, k).Some? ==>
      NoNewline(Second(t, k).value) && StartsWith(t, Second(t, k).value + TAIL)
    decreases |t| - k
  {
    if StartsWith(t[k..], TAIL) {
      StartsWithConcat(t, t[..k], TAIL);
    } else if k < |t| && t[k] != '\n' {
      assert t[..k + 1] == t[..k] + [t[k]];
      SecondSound(t, k + 1);
    }
  }

  lemma {:induction false} SecondComplete(t: string, k: nat, j: nat)
    requires k <= j <= |t| && NoNewline(t[k..j]) && StartsWith(t[j..], TAIL)
    ensures Second(t, k).Some?
    decreases j - k
  {
    if !StartsWith(t[k..], TAIL) {
      assert k < j;
      assert t[k] == t[k..j][0];
      assert t[k + 1..j] == t[k..j][1..];
      SecondComplete(t, k + 1, j);
    }
  }

  lemma {:induction false} FirstSound(u: string, k: nat)
    requires k <= |u| && NoNewline(u[..k])
    ensures First(u, k).Some? ==>
      var c := First(u, k).value;
      NoNewline(c.group) && NoNewline(c.course) && StartsWith(u, c.group + MID + c.course + TAIL)
    decreases |u| - k
  {
    if StartsWith(u[k..], MID) && Second(u[k + |MID|..], 0).Some? {
      FirstFoundSound(u, k);
    } else if k < |u| && u[k] != '\n' {
      assert u[..k + 1] == u[..k] + [u[k]];
      FirstSound(u, k + 1);
    }
  }

  /** When the middle literal and the second group match at `k`, the captures rebuild a prefix of `u`. */
  lemma FirstFoundSound(u: string, k: nat)
    requires k <= |u| && NoNewline(u[..k])
    requires StartsWith(u[k..], MID) && Second(u[k + |MID|..], 0).Some?
    ensures var c := Captures(u[..k], Second(u[k + |MID|..], 0).value);
      NoNewline(c.course) && StartsWith(u, c.group + MID + c.course + TAIL)
  {
    var t := u[k + |MID|..];
    var c := Captures(u[..k], Second(t, 0).value);
    assert t[..0] == [];
    SecondSound(t, 0);
    StartsWithConcat(u[k..], MID, c.course + TAIL);
    assert u[k..][|MID|..] == t;
    assert MID + c.course + TAIL == MID + (c.course + TAIL);
    StartsWithConcat(u, c.group, MID + c.course + TAIL);
    assert c.group + MID + c.course + TAIL == c.group + (MID + c.course + TAIL);
  }

  lemma {:induction false} FirstComplete(u: string, k: nat, c: Captures)
    requires k <= |c.group| <= |u| && NoNewline(c.group[k..]) && NoNewline(c.course)
    requires StartsWith(u, c.group + MID + c.course + TAIL)
    ensures First(u, k).Some?
    decreases |c.group| - k
  {
    var j := |c.group|;
    assert c.group + MID + c.course + TAIL == c.group + (MID + (c.course + TAIL));
    StartsWithConcat(u, c.group, MID + (c.course + TAIL));
    StartsWithConcat(u[j..], MID, c.course + TAIL);
    assert u[..j] == c.group;
    if k == j {
      var t := u[j + |MID|..];
      assert u[j..][|MID|..] == t;
      StartsWithConcat(t, c.course, TAIL);
      assert t[..|c.course|] == c.course;
      SecondComplete(t, 0, |c.course|);
    } else if !(StartsWith(u[k..], MID) && Second(u[k + |MID|..], 0).Some?) {
      assert u[k] == c.group[k..][0];
      assert c.group[k + 1..] == c.group[k..][1..];
      FirstComplete(u, k + 1, c);
    }
  }

  lemma {:induction false} SearchFromSound(text: string, i: nat)
    requires i <= |text|
    ensures SearchFrom(text, i).Some? ==>
      var c := SearchFrom(text, i).value;
      NoNewline(c.group) && NoNewline(c.course) && Contains(text, Instance(c))
    decreases |text| - i
  {
    if StartsWith(text[i..], LEAD) && First(text[i + |LEAD|..], 0).Some? {
      var u := text[i + |LEAD|..];
      var c := First(u, 0).value;
      assert u[..0] == [];
      FirstSound(u, 0);
      assert text[i..][|LEAD|..] == u;
      StartsWithConcat(text[i..], LEAD, c.group + MID + c.course + TAIL);
      assert Instance(c) == LEAD + (c.group + MID + c.course + TAIL);
      ContainsAt(text, Instance(c), i);
    } else if i < |text| {
      SearchFromSound(text, i + 1);
    }
  }

  lemma {:induction false} SearchFromComplete(text: string, i: nat, j: nat, c: Captures)
    requires i <= j <= |text| && StartsWith(text[j..], Instance(c))
    requires NoNewline(c.group) && NoNewline(c.course)
    ensures SearchFrom(text, i).Some?
    decreases j - i
  {
    if i == j {
      MatchesAt(text, j, c);
    } else if !(StartsWith(text[i..], LEAD) && First(text[i + |LEAD|..], 0).Some?) {
      SearchFromComplete(text, i + 1, j, c);
    }
  }

  /** An occurrence of the pattern at `j` is a successful attempt at start position `j`. */
  lemma MatchesAt(text: string, j: nat, c: Captures)
    requires j <= |text| && StartsWith(text[j..], Instance(c))
    requires NoNewline(c.group) && NoNewline(c.course)
    ensures StartsWith(text[j..], LEAD) && First(text[j + |LEAD|..], 0).Some?
  {
    var u := text[j + |LEAD|..];
    assert Instance(c) == LEAD + (c.group + MID + c.course + TAIL);
    StartsWithConcat(text[j..], LEAD, c.group + MID + c.course + TAIL);
    assert text[j..][|LEAD|..] == u;
    assert c.group[0..] == c.group;
    FirstComplete(u, 0, c);
  }

  /** A match found is an occurrence of the pattern in the text, with line-feed-free groups. */
  lemma SearchSound(text: string)
    ensures Search(text).Some? ==>
      var c := Search(text).value;
      Contains(text, Instance(c)) && NoNewline(c.group) && NoNewline(c.course)
  {
    SearchFromSound(text, 0);
  }

  /** Any occurrence of the pattern in the text makes the search succeed. */
  lemma SearchComplete(text: string, j: nat, c: Captures)
    requires j <= |text| && StartsWith(text[j..], Instance(c))
    requires NoNewline(c.group) && NoNewline(c.course)
    ensures Search(text).Some?
  {
    SearchFromComplete(text, 0, j, c);
  }

  /** Without the literal ` - Ranks - `, nothing matches. */
  lemma SearchNeedsLead(text: string)
    ensures !Contains(text, LEAD) ==> Search(text).None?
  {
    if Search(text).Some? {
      var c := Search(text).value;
      SearchSound(text);
      ContainsIff(text, Instance(c));
      var j :| 0 <= j <= |text| && StartsWith(text[j..], Instance(c));
      InstanceStartsWithLead(text[j..], c);
      ContainsAt(text, LEAD, j);
    }
  }

  lemma InstanceStartsWithLead(s: string, c: Captures)
    requires StartsWith(s, Instance(c))
    ensures StartsWith(s, LEAD)
  {
    assert Instance(c) == LEAD + (c.group + MID + c.course + TAIL);
    StartsWithConcat(s, LEAD, c.group + MID + c.course + TAIL);
  }
}
