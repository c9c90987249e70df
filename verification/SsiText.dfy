/** What a server-side-include file is sent as: the file, with an insert behind each tag. */
module SsiText {

  const LEAD_IN := "<!--#"
  const LEAD_OUT := "-->"
  /** `LWIP_HTTPD_MAX_TAG_NAME_LEN` */
  const MAX_NAME := 8

  predicate Space(c: char)
  {
    c == ' ' || c == '\t' || c == '\n' || c == '\r'
  }

  // ---------- Recognising a tag ----------

  /** A tag up to `end`; or no tag, with the search to go on at `resume`; or the file ends
      within what could still become a tag. */
  datatype Match = Tag(end: nat, name: string) | NoTag(resume: nat) | Unfinished

  predicate InRange(f: string, p: nat, m: Match)
  {
    match m
    case Tag(end, _) => p <= end <= |f|
    case NoTag(resume) => p <= resume <= |f|
    case Unfinished => p <= |f|
  }

  /** The first k characters of the lead-in were read. */
  function MatchLeadIn(f: string, p: nat, k: nat): (m: Match)
    requires p <= |f| && 0 < k <= 5
    ensures InRange(f, p, m)
    decreases |f| - p, 5 - k
  {
    if k == 5 then MatchName(f, p, "")
    else if p == |f| then Unfinished
    else if f[p] == LEAD_IN[k] then MatchLeadIn(f, p + 1, k + 1)
    else NoTag(p + 1)
  }

  /** The lead-in and the characters of name were read. */
  function MatchName(f: string, p: nat, name: string): (m: Match)
    requires p <= |f|
    ensures InRange(f, p, m)
    decreases |f| - p, 0
  {
    if p == |f| then Unfinished
    else if name == "" && Space(f[p]) then MatchName(f, p + 1, name)
    else if f[p] == LEAD_OUT[0] || Space(f[p]) then
      if name == "" then NoTag(p + 1)
      else MatchLeadOut(f, p + 1, if f[p] == LEAD_OUT[0] then 1 else 0, name)
    else if |name| < MAX_NAME then MatchName(f, p + 1, name + [f[p]])
    else NoTag(p + 1)
  }

  /** The name and the first k characters of the lead-out were read. */
  function MatchLeadOut(f: string, p: nat, k: nat, name: string): (m: Match)
    requires p <= |f| && k < 3
    ensures InRange(f, p, m)
    decreases |f| - p, 0
  {
    if p == |f| then Unfinished
    else if k == 0 && Space(f[p]) then MatchLeadOut(f, p + 1, k, name)
    else if f[p] == LEAD_OUT[k] then
      if k == 2 then Tag(p + 1, name) else MatchLeadOut(f, p + 1, k + 1, name)
    else NoTag(p + 1)
  }

  // ---------- Inserts ----------

  /** The registered tags and the insert handler; its answer may change from call to call. */
  datatype Site = Site(tags: seq<string>, handler: (nat, nat) -> string)

  /** A name buffer as a C string. */
  function CString(name: string): (r: string)
  {
    if name == "" || name[0] == '\0' then "" else [name[0]] + CString(name[1..])
  }

  function Lookup(tags: seq<string>, name: string): (k: nat)
    ensures k <= |tags|
    ensures k < |tags| ==> tags[k] == name
  {
    if tags == [] || tags[0] == name then 0 else 1 + Lookup(tags[1..], name)
  }

  /** `get_tag_insert` at its call number n. */
  function Insert(site: Site, n: nat, name: string): (r: string)
  {
    var key := CString(name);
    var k := Lookup(site.tags, key);
    if k < |site.tags| then site.handler(n, k)
    else "<b>***UNKNOWN TAG " + key + "***</b>"
  }

  // ---------- The text sent ----------

  /** What is sent for the file from i on, n tags having been found before. The insert of a tag
      that ends the file is left out if `cut` holds. */
  function Text(site: Site, f: string, i: nat, n: nat, cut: bool): (r: string)
    requires i <= |f|
    decreases |f| - i, 1
  {
    if i == |f| then ""
    else if f[i] == LEAD_IN[0] then [f[i]] + Finish(site, f, i + 1, MatchLeadIn(f, i + 1, 1), n, cut)
    else [f[i]] + Text(site, f, i + 1, n, cut)
  }

  /** What is sent from p on, where a match that began earlier ends as m says. */
  function Finish(site: Site, f: string, p: nat, m: Match, n: nat, cut: bool): (r: string)
    requires InRange(f, p, m)
    decreases |f| - p, 2
  {
    match m
    case Tag(end, name) =>
      f[p..end] + (if cut && end == |f| then "" else Insert(site, n, name)) + Text(site, f, end, n + 1, cut)
    case NoTag(resume) => f[p..resume] + Text(site, f, resume, n, cut)
    case Unfinished => f[p..]
  }

  /** A match that goes on past the character at p sends this character. */
  lemma FinishStep(site: Site, f: string, p: nat, m: Match, n: nat, cut: bool)
    requires p < |f| && InRange(f, p + 1, m)
    ensures Finish(site, f, p, m, n, cut) == [f[p]] + Finish(site, f, p + 1, m, n, cut)
  {
    match m
    case Tag(end, name) => assert f[p..end] == [f[p]] + f[p + 1..end];
    case NoTag(resume) => assert f[p..resume] == [f[p]] + f[p + 1..resume];
    case Unfinished => assert f[p..] == [f[p]] + f[p + 1..];
  }

  /** A match that fails at the character at p sends it and searches on behind it. */
  lemma FinishNoTag(site: Site, f: string, p: nat, n: nat, cut: bool)
    requires p < |f|
    ensures Finish(site, f, p, NoTag(p + 1), n, cut) == [f[p]] + Text(site, f, p + 1, n, cut)
  {
    assert f[p..p + 1] == [f[p]];
  }

  lemma FinishTag(site: Site, f: string, p: nat, name: string, n: nat, cut: bool)
    requires p < |f|
    ensures Finish(site, f, p, Tag(p + 1, name), n, cut)
            == [f[p]] + ((if cut && p + 1 == |f| then "" else Insert(site, n, name)) + Text(site, f, p + 1, n + 1, cut))
  {
    assert f[p..p + 1] == [f[p]];
  }

  // ---------- What a tag looks like ----------

  predicate AllSpace(s: string)
  {
    forall i :: 0 <= i < |s| ==> Space(s[i])
  }

  predicate IsName(s: string)
  {
    && 0 < |s| <= MAX_NAME
    && forall i :: 0 <= i < |s| ==> !Space(s[i]) && s[i] != '-'
  }

  /** Lead-in, white space, a name, white space, lead-out. */
  ghost predicate IsTag(s: string, name: string)
  {
    && IsName(name)
    && exists w1, w2 :: AllSpace(w1) && AllSpace(w2) && s == TagText(w1, name, w2)
  }

  function TagText(w1: string, name: string, w2: string): (r: string)
  {
    LEAD_IN + (w1 + name + w2 + LEAD_OUT)
  }

  lemma {:induction false} LeadOutMatches(f: string, p: nat, w: string, name: string)
    requires AllSpace(w) && p + |w| + 3 <= |f| && f[p..p + |w| + 3] == w + LEAD_OUT
    ensures MatchLeadOut(f, p, 0, name) == Tag(p + |w| + 3, name)
    decreases |w|
  {
    var s := f[p..p + |w| + 3];
    assert forall i :: 0 <= i < |s| ==> f[p + i] == s[i];
    if w == "" {
      assert s == LEAD_OUT;
      assert f[p] == s[0] && f[p + 1] == s[1] && f[p + 2] == s[2];
      assert MatchLeadOut(f, p + 2, 2, name) == Tag(p + 3, name);
      assert MatchLeadOut(f, p + 1, 1, name) == MatchLeadOut(f, p + 2, 2, name);
    } else {
      assert f[p] == s[0] == w[0];
      assert f[p + 1..p + 1 + |w[1..]| + 3] == s[1..] == w[1..] + LEAD_OUT;
      LeadOutMatches(f, p + 1, w[1..], name);
    }
  }

  lemma {:induction false} NameMatches(f: string, p: nat, read: string, rest: string, w: string)
    requires IsName(read + rest) && AllSpace(w) && (read == "" ==> rest != "")
    requires p + |rest| + |w| + 3 <= |f| && f[p..p + |rest| + |w| + 3] == rest + w + LEAD_OUT
    ensures MatchName(f, p, read) == Tag(p + |rest| + |w| + 3, read + rest)
    decreases |rest|
  {
    var s := f[p..p + |rest| + |w| + 3];
    assert forall i :: 0 <= i < |s| ==> f[p + i] == s[i];
    if rest == "" {
      assert read + rest == read;
      assert s == w + LEAD_OUT;
      if w == "" {
        assert f[p] == s[0] == '-' && f[p + 1] == s[1] == '-' && f[p + 2] == s[2] == '>';
        assert MatchLeadOut(f, p + 2, 2, read) == Tag(p + 3, read);
      } else {
        assert f[p] == s[0] == w[0];
        assert f[p + 1..p + 1 + |w[1..]| + 3] == s[1..] == w[1..] + LEAD_OUT;
        LeadOutMatches(f, p + 1, w[1..], read);
      }
    } else {
      var c := rest[0];
      assert f[p] == s[0] == c;
      assert (read + rest)[|read|] == c;
      assert read + rest == (read + [c]) + rest[1..];
      assert f[p + 1..p + 1 + |rest[1..]| + |w| + 3] == s[1..] == rest[1..] + w + LEAD_OUT;
      NameMatches(f, p + 1, read + [c], rest[1..], w);
    }
  }

  lemma {:induction false} GapMatches(f: string, p: nat, w1: string, name: string, w2: string)
    requires AllSpace(w1) && IsName(name) && AllSpace(w2)
    requires p + |w1| + |name| + |w2| + 3 <= |f|
    requires f[p..p + |w1| + |name| + |w2| + 3] == w1 + name + w2 + LEAD_OUT
    ensures MatchName(f, p, "") == Tag(p + |w1| + |name| + |w2| + 3, name)
    decreases |w1|
  {
    var s := f[p..p + |w1| + |name| + |w2| + 3];
    assert forall i :: 0 <= i < |s| ==> f[p + i] == s[i];
    if w1 == "" {
      assert s == name + w2 + LEAD_OUT;
      assert "" + name == name;
      NameMatches(f, p, "", name, w2);
    } else {
      assert f[p] == s[0] == w1[0];
      assert f[p + 1..p + 1 + |w1[1..]| + |name| + |w2| + 3] == s[1..] == w1[1..] + name + w2 + LEAD_OUT;
      GapMatches(f, p + 1, w1[1..], name, w2);
    }
  }

  lemma LeadInMatches(f: string, i: nat)
    requires i + 5 <= |f| && f[i..i + 5] == LEAD_IN
    ensures MatchLeadIn(f, i + 1, 1) == MatchName(f, i + 5, "")
  {
    var s := f[i..i + 5];
    assert f[i + 1] == s[1] && f[i + 2] == s[2] && f[i + 3] == s[3] && f[i + 4] == s[4];
    assert MatchLeadIn(f, i + 4, 4) == MatchLeadIn(f, i + 5, 5);
    assert MatchLeadIn(f, i + 3, 3) == MatchLeadIn(f, i + 4, 4);
    assert MatchLeadIn(f, i + 2, 2) == MatchLeadIn(f, i + 3, 3);
  }

  lemma RecognisedAs(f: string, i: nat, end: nat, w1: string, name: string, w2: string)
    requires i < end <= |f| && AllSpace(w1) && IsName(name) && AllSpace(w2)
    requires f[i..end] == TagText(w1, name, w2)
    ensures f[i] == '<' && MatchLeadIn(f, i + 1, 1) == Tag(end, name)
  {
    hide MatchLeadIn, MatchName;
    TakenApart(f, i, end, LEAD_IN, w1 + name + w2 + LEAD_OUT);
    LeadInMatches(f, i);
    GapMatches(f, i + 5, w1, name, w2);
  }

  /** Wherever the search meets the text of a tag, it recognises the tag. */
  lemma TagsAreRecognised(f: string, i: nat, end: nat, name: string)
    requires i < end <= |f| && IsTag(f[i..end], name)
    ensures f[i] == '<' && MatchLeadIn(f, i + 1, 1) == Tag(end, name)
  {
    hide MatchLeadIn, TagText;
    var w1, w2 :| AllSpace(w1) && AllSpace(w2) && f[i..end] == TagText(w1, name, w2);
    RecognisedAs(f, i, end, w1, name, w2);
  }

  lemma TakenApart(f: string, i: nat, end: nat, a: string, b: string)
    requires i <= end <= |f| && f[i..end] == a + b
    ensures end == i + |a| + |b|
    ensures f[i..i + |a|] == a && f[i + |a|..end] == b
    ensures a != "" ==> f[i] == a[0]
  {
    assert f[i..i + |a|] == f[i..end][..|a|];
    assert f[i + |a|..end] == f[i..end][|a|..];
  }

  lemma {:induction false} LeadOutSound(f: string, p: nat, k: nat, name: string) returns (w: string)
    requires p <= |f| && k < 3 && MatchLeadOut(f, p, k, name).Tag?
    ensures MatchLeadOut(f, p, k, name).name == name
    ensures AllSpace(w) && (0 < k ==> w == "")
    ensures f[p..MatchLeadOut(f, p, k, name).end] == w + LEAD_OUT[k..]
    decreases |f| - p
  {
    var end := MatchLeadOut(f, p, k, name).end;
    assert f[p..end] == [f[p]] + f[p + 1..end];
    if k == 0 && Space(f[p]) {
      w := LeadOutSound(f, p + 1, k, name);
      w := [f[p]] + w;
    } else if k == 2 {
      w := "";
      assert f[p + 1..end] == "";
    } else {
      w := LeadOutSound(f, p + 1, k + 1, name);
      assert w == "";
      assert LEAD_OUT[k..] == [LEAD_OUT[k]] + LEAD_OUT[k + 1..];
    }
  }

  lemma {:induction false} NameSound(f: string, p: nat, read: string) returns (rest: string, w: string)
    requires p <= |f| && read != "" && IsName(read) && MatchName(f, p, read).Tag?
    ensures var m := MatchName(f, p, read);
            && m.name == read + rest && IsName(m.name) && AllSpace(w)
            && f[p..m.end] == rest + w + LEAD_OUT
    decreases |f| - p
  {
    var end := MatchName(f, p, read).end;
    assert f[p..end] == [f[p]] + f[p + 1..end];
    if f[p] == '-' {
      w := LeadOutSound(f, p + 1, 1, read);
      rest := "";
      assert LEAD_OUT == [LEAD_OUT[0]] + LEAD_OUT[1..];
    } else if Space(f[p]) {
      w := LeadOutSound(f, p + 1, 0, read);
      rest, w := "", [f[p]] + w;
    } else {
      rest, w := NameSound(f, p + 1, read + [f[p]]);
      rest := [f[p]] + rest;
      assert read + [f[p]] + rest[1..] == read + rest;
    }
  }

  lemma {:induction false} GapSound(f: string, p: nat) returns (w1: string, w2: string)
    requires p <= |f| && MatchName(f, p, "").Tag?
    ensures var m := MatchName(f, p, "");
            && IsName(m.name) && AllSpace(w1) && AllSpace(w2)
            && f[p..m.end] == w1 + m.name + w2 + LEAD_OUT
    decreases |f| - p
  {
    var end := MatchName(f, p, "").end;
    assert f[p..end] == [f[p]] + f[p + 1..end];
    if Space(f[p]) {
      w1, w2 := GapSound(f, p + 1);
      w1 := [f[p]] + w1;
    } else {
      assert "" + [f[p]] == [f[p]];
      var rest;
      rest, w2 := NameSound(f, p + 1, [f[p]]);
      w1 := "";
    }
  }

  lemma LeadInSound(f: string, i: nat)
    requires i < |f| && f[i] == '<' && MatchLeadIn(f, i + 1, 1).Tag?
    ensures i + 5 <= |f| && f[i..i + 5] == LEAD_IN && MatchName(f, i + 5, "").Tag?
  {
    assert MatchLeadIn(f, i + 2, 2).Tag? && f[i + 1] == '!';
    assert MatchLeadIn(f, i + 3, 3).Tag? && f[i + 2] == '-';
    assert MatchLeadIn(f, i + 4, 4).Tag? && f[i + 3] == '-';
    assert MatchLeadIn(f, i + 5, 5).Tag? && f[i + 4] == '#';
  }

  /** What the search recognises as a tag has the shape of a tag. */
  lemma RecognisedAreTags(f: string, i: nat)
    requires i < |f| && f[i] == '<' && MatchLeadIn(f, i + 1, 1).Tag?
    ensures var m := MatchLeadIn(f, i + 1, 1);
            i < m.end <= |f| && IsTag(f[i..m.end], m.name)
  {
    hide MatchLeadIn, MatchName;
    LeadInSound(f, i);
    LeadInMatches(f, i);
    var m := MatchLeadIn(f, i + 1, 1);
    var w1, w2 := GapSound(f, i + 5);
    assert f[i..m.end] == f[i..i + 5] + f[i + 5..m.end];
    assert f[i..m.end] == TagText(w1, m.name, w2);
  }

  // ---------- The insert that can get lost ----------

  /** The insert of the tag that ends the file, if one does. */
  function EndInsert(site: Site, f: string, i: nat, n: nat): (r: string)
    requires i <= |f|
    decreases |f| - i
  {
    if i == |f| then ""
    else if f[i] == LEAD_IN[0] then
      match MatchLeadIn(f, i + 1, 1)
      case Tag(end, name) => if end == |f| then Insert(site, n, name) else EndInsert(site, f, end, n + 1)
      case NoTag(resume) => EndInsert(site, f, resume, n)
      case Unfinished => ""
    else EndInsert(site, f, i + 1, n)
  }

  /** The cut text is the whole text without the insert of a tag that ends the file. */
  lemma {:induction false} CutText(site: Site, f: string, i: nat, n: nat)
    requires i <= |f|
    ensures Text(site, f, i, n, false) == Text(site, f, i, n, true) + EndInsert(site, f, i, n)
    decreases |f| - i
  {
    if i == |f| {
    } else if f[i] == LEAD_IN[0] {
      match MatchLeadIn(f, i + 1, 1)
      case Tag(end, name) => CutText(site, f, end, n + 1);
      case NoTag(resume) => CutText(site, f, resume, n);
      case Unfinished =>
    } else {
      CutText(site, f, i + 1, n);
    }
  }

  /** No insert can get lost unless the file ends with a lead-out. */
  lemma {:induction false} EndInsertNeedsLeadOut(site: Site, f: string, i: nat, n: nat)
    requires i <= |f| && EndInsert(site, f, i, n) != ""
    ensures 3 <= |f| && f[|f| - 3..] == LEAD_OUT
    decreases |f| - i
  {
    if f[i] == LEAD_IN[0] {
      match MatchLeadIn(f, i + 1, 1)
      case Tag(end, name) =>
        if end == |f| {
          RecognisedAreTags(f, i);
          EndsWithLeadOut(f, i, name);
        } else {
          EndInsertNeedsLeadOut(site, f, end, n + 1);
        }
      case NoTag(resume) => EndInsertNeedsLeadOut(site, f, resume, n);
    } else {
      EndInsertNeedsLeadOut(site, f, i + 1, n);
    }
  }

  lemma EndsWithLeadOut(f: string, i: nat, name: string)
    requires i <= |f| && IsTag(f[i..|f|], name)
    ensures 3 <= |f| && f[|f| - 3..] == LEAD_OUT
  {
    var w1, w2 :| AllSpace(w1) && AllSpace(w2) && f[i..|f|] == TagText(w1, name, w2);
    TakenApart(f, i, |f|, LEAD_IN + (w1 + name + w2), LEAD_OUT);
  }
}
