/** The tag parser of `http_send_data_ssi`, one character at a time. */
module SsiParser {
  import opened SsiText

  datatype TagState = NoneFound | LeadIn | Found | LeadOut | Sending

  /** `tag_state`, `tag_index` and `tag_name`. */
  datatype Parser = Parser(state: TagState, index: nat, name: string)

  predicate Consistent(ps: Parser)
  {
    match ps.state
    case LeadIn => 0 < ps.index <= 5
    case Found => ps.index <= |ps.name| && ps.index <= MAX_NAME
    case LeadOut => ps.index < 3
    case _ => true
  }

  /** What the file from p on is sent as when the parser stands at p like this. */
  function Future(site: Site, f: string, p: nat, ps: Parser, n: nat): (r: string)
    requires p <= |f| && Consistent(ps)
  {
    match ps.state
    case LeadIn => Finish(site, f, p, MatchLeadIn(f, p, ps.index), n, true)
    case Found => Finish(site, f, p, MatchName(f, p, ps.name[..ps.index]), n, true)
    case LeadOut => Finish(site, f, p, MatchLeadOut(f, p, ps.index, ps.name), n, true)
    case _ => Text(site, f, p, n, true)
  }

  /** The parser after a character; a lead-out that is complete is not covered. */
  function Next(ps: Parser, c: char): (r: Parser)
    requires Consistent(ps) && !(ps.state == LeadIn && ps.index == 5)
    requires ps.state != Sending && !(ps.state == LeadOut && ps.index == 2 && c == LEAD_OUT[2])
    ensures Consistent(r)
  {
    match ps.state
    case NoneFound => if c == LEAD_IN[0] then Parser(LeadIn, 1, ps.name) else ps
    case LeadIn =>
      if c == LEAD_IN[ps.index] then ps.(index := ps.index + 1) else ps.(state := NoneFound)
    case Found =>
      if ps.index == 0 && Space(c) then ps
      else if c == LEAD_OUT[0] || Space(c) then
        if ps.index == 0 then ps.(state := NoneFound)
        else Parser(LeadOut, if c == LEAD_OUT[0] then 1 else 0, ps.name[..ps.index])
      else if ps.index < MAX_NAME then Parser(Found, ps.index + 1, ps.name[..ps.index] + [c])
      else ps.(state := NoneFound)
    case LeadOut =>
      if ps.index == 0 && Space(c) then ps
      else if c == LEAD_OUT[ps.index] then ps.(index := ps.index + 1)
      else ps.(state := NoneFound)
  }

  lemma FoundStep(site: Site, f: string, p: nat, ps: Parser, n: nat)
    requires p < |f| && Consistent(ps) && ps.state == Found
    ensures Future(site, f, p, ps, n) == [f[p]] + Future(site, f, p + 1, Next(ps, f[p]), n)
  {
    hide Finish, Text, MatchLeadOut, MatchLeadIn;
    var c, name := f[p], ps.name[..ps.index];
    if ps.index == 0 && Space(c) {
      FinishStep(site, f, p, MatchName(f, p + 1, name), n, true);
    } else if c == LEAD_OUT[0] || Space(c) {
      if ps.index == 0 {
        FinishNoTag(site, f, p, n, true);
      } else {
        FinishStep(site, f, p, MatchLeadOut(f, p + 1, if c == LEAD_OUT[0] then 1 else 0, name), n, true);
      }
    } else if ps.index < MAX_NAME {
      assert (name + [c])[..ps.index + 1] == name + [c];
      FinishStep(site, f, p, MatchName(f, p + 1, name + [c]), n, true);
    } else {
      FinishNoTag(site, f, p, n, true);
    }
  }

  lemma LeadOutStep(site: Site, f: string, p: nat, ps: Parser, n: nat)
    requires p < |f| && Consistent(ps) && ps.state == LeadOut && !(ps.index == 2 && f[p] == LEAD_OUT[2])
    ensures Future(site, f, p, ps, n) == [f[p]] + Future(site, f, p + 1, Next(ps, f[p]), n)
  {
    hide Finish, Text, MatchLeadIn, MatchName;
    if ps.index == 0 && Space(f[p]) {
      FinishStep(site, f, p, MatchLeadOut(f, p + 1, 0, ps.name), n, true);
    } else if f[p] == LEAD_OUT[ps.index] {
      FinishStep(site, f, p, MatchLeadOut(f, p + 1, ps.index + 1, ps.name), n, true);
    } else {
      FinishNoTag(site, f, p, n, true);
    }
  }

  /** Reading a character sends it; the rest is as the parser stands afterwards. */
  lemma ParserStep(site: Site, f: string, p: nat, ps: Parser, n: nat)
    requires p < |f| && Consistent(ps) && !(ps.state == LeadIn && ps.index == 5)
    requires ps.state != Sending && !(ps.state == LeadOut && ps.index == 2 && f[p] == LEAD_OUT[2])
    ensures Future(site, f, p, ps, n) == [f[p]] + Future(site, f, p + 1, Next(ps, f[p]), n)
  {
    hide Finish, MatchName, MatchLeadOut;
    match ps.state
    case NoneFound =>
    case LeadIn =>
      if f[p] == LEAD_IN[ps.index] {
        FinishStep(site, f, p, MatchLeadIn(f, p + 1, ps.index + 1), n, true);
      } else {
        FinishNoTag(site, f, p, n, true);
      }
    case Found => FoundStep(site, f, p, ps, n);
    case LeadOut => LeadOutStep(site, f, p, ps, n);
  }

  /** The end of the lead-in is noticed without reading a character. */
  lemma LeadInEnds(site: Site, f: string, p: nat, name: string, n: nat)
    requires p <= |f|
    ensures Future(site, f, p, Parser(LeadIn, 5, name), n) == Future(site, f, p, Parser(Found, 0, name), n)
  {
    assert name[..0] == "";
  }

  /** The last character of the lead-out sends the insert, and starts over. */
  lemma TagEnds(site: Site, f: string, p: nat, name: string, n: nat)
    requires p < |f| && f[p] == LEAD_OUT[2]
    ensures Future(site, f, p, Parser(LeadOut, 2, name), n)
            == [f[p]] + ((if p + 1 == |f| then "" else Insert(site, n, name)) + Text(site, f, p + 1, n + 1, true))
  {
    hide Finish, Text;
    FinishTag(site, f, p, name, n, true);
  }

  /** At the end of the file nothing more is sent. */
  lemma FutureAtEnd(site: Site, f: string, ps: Parser, n: nat)
    requires Consistent(ps)
    ensures Future(site, f, |f|, ps, n) == ""
  {
  }

  /** Outside of a tag the future is the text of the rest of the file. */
  lemma FutureOutside(site: Site, f: string, p: nat, ps: Parser, n: nat)
    requires p <= |f| && (ps.state == Sending || ps.state == NoneFound)
    ensures Future(site, f, p, ps, n) == Text(site, f, p, n, true)
  {
  }
}
