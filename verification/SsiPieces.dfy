/** Which tags of a file get an insert, said without the search: the file falls into plain
    characters, tags, false starts and an open end, and every tag among these gets its insert. */
module SsiPieces {
  import opened SsiText

  // ---------- Beginnings of tags ----------

  /** A proper beginning of a tag. */
  ghost predicate Viable(s: string)
  {
    s != "" && exists t, name :: IsTag(t, name) && s < t
  }

  /** A beginning of a tag, and a character with which nothing can become a tag any more. */
  ghost predicate FalseStart(s: string)
  {
    && 2 <= |s|
    && Viable(s[..|s| - 1])
    && !Viable(s)
    && !exists name :: IsTag(s, name)
  }

  lemma ViableFront(s: string, k: nat)
    requires Viable(s) && 0 < k <= |s|
    ensures Viable(s[..k])
  {
    var t, name :| IsTag(t, name) && s < t;
    assert s[..k] < t;
  }

  // ---------- A match depends on what it has read only ----------

  /** How far a match that has come to an end has read. */
  function End(m: Match): (e: nat)
    requires !m.Unfinished?
  {
    if m.Tag? then m.end else m.resume
  }

  lemma {:induction false} LeadOutLocal(f: string, g: string, p: nat, k: nat, name: string)
    requires p <= |f| && k < 3 && !MatchLeadOut(f, p, k, name).Unfinished?
    requires var e := End(MatchLeadOut(f, p, k, name)); e <= |g| && f[..e] == g[..e]
    ensures p < End(MatchLeadOut(f, p, k, name))
    ensures MatchLeadOut(g, p, k, name) == MatchLeadOut(f, p, k, name)
    decreases |f| - p
  {
    var e := End(MatchLeadOut(f, p, k, name));
    if k == 0 && Space(f[p]) {
      LeadOutLocal(f, g, p + 1, k, name);
    } else if f[p] == LEAD_OUT[k] && k < 2 {
      LeadOutLocal(f, g, p + 1, k + 1, name);
    }
    assert f[p] == f[..e][p] == g[p];
  }

  lemma {:induction false} NameLocal(f: string, g: string, p: nat, name: string)
    requires p <= |f| && !MatchName(f, p, name).Unfinished?
    requires var e := End(MatchName(f, p, name)); e <= |g| && f[..e] == g[..e]
    ensures p < End(MatchName(f, p, name))
    ensures MatchName(g, p, name) == MatchName(f, p, name)
    decreases |f| - p
  {
    var e := End(MatchName(f, p, name));
    if name == "" && Space(f[p]) {
      NameLocal(f, g, p + 1, name);
    } else if f[p] == LEAD_OUT[0] || Space(f[p]) {
      if name != "" {
        LeadOutLocal(f, g, p + 1, if f[p] == LEAD_OUT[0] then 1 else 0, name);
      }
    } else if |name| < MAX_NAME {
      NameLocal(f, g, p + 1, name + [f[p]]);
    }
    assert f[p] == f[..e][p] == g[p];
  }

  lemma {:induction false} LeadInLocal(f: string, g: string, p: nat, k: nat)
    requires p <= |f| && 0 < k <= 5 && !MatchLeadIn(f, p, k).Unfinished?
    requires var e := End(MatchLeadIn(f, p, k)); e <= |g| && f[..e] == g[..e]
    ensures p < End(MatchLeadIn(f, p, k))
    ensures MatchLeadIn(g, p, k) == MatchLeadIn(f, p, k)
    decreases 5 - k
  {
    var e := End(MatchLeadIn(f, p, k));
    if k == 5 {
      NameLocal(f, g, p, "");
    } else {
      if f[p] == LEAD_IN[k] {
        LeadInLocal(f, g, p + 1, k + 1);
      }
      assert f[p] == f[..e][p] == g[p];
    }
  }

  // ---------- A match that has not failed can still become a tag ----------

  /** How far a match that does not find a tag reads what a tag could begin with. */
  function Stop(f: string, m: Match): (q: int)
    requires !m.Tag?
  {
    if m.NoTag? then m.resume - 1 else |f|
  }

  lemma Peel(f: string, p: nat, q: nat, ext: string)
    requires p < q <= |f|
    ensures f[p..q] + ext == [f[p]] + (f[p + 1..q] + ext)
  {
    assert f[p..q] == [f[p]] + f[p + 1..q];
  }

  lemma {:induction false} LeadOutViable(f: string, p: nat, k: nat, name: string) returns (w: string, ext: string)
    requires p <= |f| && k < 3 && !MatchLeadOut(f, p, k, name).Tag?
    ensures var q := Stop(f, MatchLeadOut(f, p, k, name));
            p <= q <= |f| && ext != "" && AllSpace(w) && (0 < k ==> w == "") && f[p..q] + ext == w + LEAD_OUT[k..]
    decreases |f| - p
  {
    var q := Stop(f, MatchLeadOut(f, p, k, name));
    if p < |f| && k == 0 && Space(f[p]) {
      w, ext := LeadOutViable(f, p + 1, k, name);
      Peel(f, p, q, ext);
      w := [f[p]] + w;
    } else if p < |f| && f[p] == LEAD_OUT[k] {
      w, ext := LeadOutViable(f, p + 1, k + 1, name);
      Peel(f, p, q, ext);
      assert LEAD_OUT[k..] == [LEAD_OUT[k]] + LEAD_OUT[k + 1..];
    } else {
      assert f[p..q] == "";
      w, ext := "", LEAD_OUT[k..];
    }
  }

  lemma {:induction false} NameViable(f: string, p: nat, read: string) returns (rest: string, w: string, ext: string)
    requires p <= |f| && IsName(read) && !MatchName(f, p, read).Tag?
    ensures var q := Stop(f, MatchName(f, p, read));
            && p <= q <= |f| && ext != "" && IsName(read + rest) && AllSpace(w)
            && f[p..q] + ext == rest + w + LEAD_OUT
    decreases |f| - p
  {
    var q := Stop(f, MatchName(f, p, read));
    if p == |f| {
      rest, w, ext := "", "", LEAD_OUT;
      assert f[p..q] == "" && read + rest == read;
    } else if f[p] == '-' {
      w, ext := LeadOutViable(f, p + 1, 1, read);
      rest := "";
      Peel(f, p, q, ext);
      assert read + rest == read;
      assert LEAD_OUT == [LEAD_OUT[0]] + LEAD_OUT[1..];
    } else if Space(f[p]) {
      w, ext := LeadOutViable(f, p + 1, 0, read);
      Peel(f, p, q, ext);
      rest, w := "", [f[p]] + w;
      assert read + rest == read;
    } else if |read| < MAX_NAME {
      rest, w, ext := NameViable(f, p + 1, read + [f[p]]);
      Peel(f, p, q, ext);
      assert read + [f[p]] + rest == read + ([f[p]] + rest);
      rest := [f[p]] + rest;
    } else {
      rest, w, ext := "", "", LEAD_OUT;
      assert f[p..q] == "" && read + rest == read;
    }
  }

  lemma {:induction false} GapViable(f: string, p: nat) returns (w1: string, name: string, w2: string, ext: string)
    requires p <= |f| && !MatchName(f, p, "").Tag?
    ensures var q := Stop(f, MatchName(f, p, ""));
            && p <= q <= |f| && ext != "" && AllSpace(w1) && IsName(name) && AllSpace(w2)
            && f[p..q] + ext == w1 + name + w2 + LEAD_OUT
    decreases |f| - p
  {
    var q := Stop(f, MatchName(f, p, ""));
    if p < |f| && Space(f[p]) {
      w1, name, w2, ext := GapViable(f, p + 1);
      Peel(f, p, q, ext);
      w1 := [f[p]] + w1;
    } else if p < |f| && f[p] != '-' {
      assert "" + [f[p]] == [f[p]];
      var rest;
      rest, w2, ext := NameViable(f, p + 1, [f[p]]);
      Peel(f, p, q, ext);
      w1, name := "", [f[p]] + rest;
      assert w1 + name + w2 + LEAD_OUT == [f[p]] + (rest + w2 + LEAD_OUT);
    } else {
      assert f[p..q] == "";
      w1, name, w2 := "", "a", "";
      ext := w1 + name + w2 + LEAD_OUT;
    }
  }

  /** Where the search meets a '<' and finds no tag, what it reads is a beginning of a tag up to where
      the file ends or a character comes that does not fit. */
  lemma StartViable(f: string, i: nat)
    requires i < |f| && f[i] == '<' && !MatchLeadIn(f, i + 1, 1).Tag?
    ensures var q := Stop(f, MatchLeadIn(f, i + 1, 1)); i < q <= |f| && Viable(f[i..q])
  {
    var q := Stop(f, MatchLeadIn(f, i + 1, 1));
    if i + 5 <= |f| && f[i..i + 5] == LEAD_IN {
      LeadInMatches(f, i);
      hide MatchLeadIn, MatchName;
      var w1, name, w2, ext := GapViable(f, i + 5);
      hide Viable;
      assert f[i..q] == f[i..i + 5] + f[i + 5..q];
      TagContinues(f[i + 5..q], ext, w1, name, w2);
    } else {
      assert f[i..i + 1] == LEAD_IN[..1];
      LeadInStops(f, i, 1);
      hide MatchLeadIn;
      var tag := TagText("", "a", "");
      assert tag[..q - i] == LEAD_IN[..q - i];
      CanContinue(f[i..q], tag, "a");
    }
  }

  lemma TagContinues(s: string, ext: string, w1: string, name: string, w2: string)
    requires ext != "" && AllSpace(w1) && IsName(name) && AllSpace(w2)
    requires s + ext == w1 + name + w2 + LEAD_OUT
    ensures Viable(LEAD_IN + s)
  {
    var t := LEAD_IN + s + ext;
    assert t == LEAD_IN + (s + ext) == TagText(w1, name, w2);
    CanContinue(LEAD_IN + s, t, name);
  }

  lemma CanContinue(s: string, t: string, name: string)
    requires s != "" && IsTag(t, name) && s < t
    ensures Viable(s)
  {
  }

  lemma {:induction false} LeadInStops(f: string, i: nat, k: nat)
    requires 0 < k < 5 && i + k <= |f| && f[i..i + k] == LEAD_IN[..k]
    requires !(i + 5 <= |f| && f[i..i + 5] == LEAD_IN)
    ensures !MatchLeadIn(f, i + k, k).Tag?
    ensures var q := Stop(f, MatchLeadIn(f, i + k, k));
            i < q <= |f| && q - i < 5 && f[i..q] == LEAD_IN[..q - i]
    decreases 5 - k
  {
    if i + k < |f| && f[i + k] == LEAD_IN[k] {
      LeadInGrows(f, i, k);
      if k < 4 {
        LeadInStops(f, i, k + 1);
      }
    }
  }

  lemma LeadInGrows(f: string, i: nat, k: nat)
    requires k < 5 && i + k < |f| && f[i..i + k] == LEAD_IN[..k] && f[i + k] == LEAD_IN[k]
    ensures f[i..i + k + 1] == LEAD_IN[..k + 1]
    ensures k == 4 ==> f[i..i + 5] == LEAD_IN
  {
    assert f[i..i + k + 1] == f[i..i + k] + [f[i + k]];
    assert LEAD_IN[..k + 1] == LEAD_IN[..k] + [LEAD_IN[k]];
    assert LEAD_IN[..5] == LEAD_IN;
  }

  // ---------- What the search does at a '<' ----------

  lemma BeginsWithLess(s: string)
    requires Viable(s) || exists name :: IsTag(s, name)
    ensures s != "" && s[0] == '<'
  {
  }

  /** If all that a match has read is the beginning of a tag, or the tag itself, then it has found this
      tag. */
  lemma PrefixOfTag(f: string, i: nat, t: string, name: string)
    requires i < |f| && !MatchLeadIn(f, i + 1, 1).Unfinished? && IsTag(t, name)
    requires i <= End(MatchLeadIn(f, i + 1, 1)) && f[i..End(MatchLeadIn(f, i + 1, 1))] <= t
    ensures MatchLeadIn(f, i + 1, 1) == Tag(i + |t|, name)
  {
    hide MatchLeadIn, IsTag;
    var e := End(MatchLeadIn(f, i + 1, 1));
    var g := f[..i] + t;
    assert g[i..] == t && g[i..|g|] == t;
    TagsAreRecognised(g, i, |g|, name);
    assert f[..e] == f[..i] + f[i..e] == g[..e];
    LeadInLocal(f, g, i + 1, 1);
  }

  /** Where the match fails, there is a false start. */
  lemma FailsAtFalseStart(f: string, i: nat)
    requires i < |f| && f[i] == '<' && MatchLeadIn(f, i + 1, 1).NoTag?
    ensures var r := MatchLeadIn(f, i + 1, 1).resume; i + 2 <= r <= |f| && FalseStart(f[i..r])
  {
    hide MatchLeadIn, IsTag;
    var r := MatchLeadIn(f, i + 1, 1).resume;
    StartViable(f, i);
    var s := f[i..r];
    assert s[..|s| - 1] == f[i..r - 1];
    if name :| IsTag(s, name) {
      PrefixOfTag(f, i, s, name);
    }
    if Viable(s) {
      var t, name :| IsTag(t, name) && s < t;
      PrefixOfTag(f, i, t, name);
    }
  }

  // A tag and a false start are decided: all their proper beginnings can still become a tag, and they
  // cannot.

  ghost predicate Decided(s: string)
  {
    FalseStart(s) || exists name :: IsTag(s, name)
  }

  lemma DecidedIsNotViable(s: string)
    requires Decided(s)
    ensures !Viable(s)
  {
    hide MatchLeadIn, IsTag;
    if name :| IsTag(s, name) {
      assert s[0..|s|] == s;
      BeginsWithLess(s);
      TagsAreRecognised(s, 0, |s|, name);
      if t, other :| IsTag(t, other) && s < t {
        PrefixOfTag(s, 0, t, other);
      }
    }
  }

  lemma FrontIsViable(s: string, k: nat)
    requires (Decided(s) && 0 < k < |s|) || (Viable(s) && 0 < k <= |s|)
    ensures Viable(s[..k])
  {
    hide IsTag;
    if Viable(s) {
      ViableFront(s, k);
    } else if FalseStart(s) {
      assert s[..k] == s[..|s| - 1][..k];
      ViableFront(s[..|s| - 1], k);
    } else {
      var name :| IsTag(s, name);
      CanContinue(s[..k], s, name);
    }
  }

  /** At any position at most one piece of the file is decided, and none if the rest is open. */
  lemma OneDecided(f: string, i: nat, e1: nat, e2: nat)
    requires i < e1 <= e2 <= |f| && Decided(f[i..e1])
    requires Decided(f[i..e2]) || Viable(f[i..e2])
    ensures e1 == e2 && Decided(f[i..e2])
  {
    hide Viable, Decided;
    var s := f[i..e2];
    assert s[..e1 - i] == f[i..e1];
    DecidedIsNotViable(f[i..e1]);
    if e1 < e2 || Viable(s) {
      FrontIsViable(s, e1 - i);
    }
  }

  /** What the end of a match that has found something says about the file. */
  lemma MatchDecides(f: string, i: nat)
    requires i < |f| && f[i] == '<'
    ensures var m := MatchLeadIn(f, i + 1, 1);
            && (m.Tag? ==> IsTag(f[i..m.end], m.name))
            && (m.NoTag? ==> FalseStart(f[i..m.resume]))
            && (!m.Unfinished? ==> i < End(m) <= |f| && Decided(f[i..End(m)]))
            && (m.Unfinished? ==> Viable(f[i..|f|]))
  {
    hide MatchLeadIn, IsTag, FalseStart;
    match MatchLeadIn(f, i + 1, 1)
    case Tag(end, name) => RecognisedAreTags(f, i);
    case NoTag(r) => FailsAtFalseStart(f, i);
    case Unfinished => StartViable(f, i);
  }

  /** Where there is a false start, the match fails behind it. */
  lemma FalseStartFails(f: string, i: nat, r: nat)
    requires i <= r <= |f| && FalseStart(f[i..r])
    ensures i < |f| && f[i] == '<' && MatchLeadIn(f, i + 1, 1) == NoTag(r)
  {
    var s := f[i..r];
    assert s[..|s| - 1][0] == f[i];
    BeginsWithLess(s[..|s| - 1]);
    var m := MatchLeadIn(f, i + 1, 1);
    MatchDecides(f, i);
    hide MatchLeadIn, Viable;
    var e := if m.Unfinished? then |f| else End(m);
    if r <= e {
      OneDecided(f, i, r, e);
    } else {
      OneDecided(f, i, e, r);
    }
  }

  /** The match ends with the file exactly if the rest of the file is the beginning of a tag. */
  lemma OpenIsUnfinished(f: string, i: nat)
    requires i < |f|
    ensures Viable(f[i..]) <==> f[i] == '<' && MatchLeadIn(f, i + 1, 1) == Unfinished
  {
    assert f[i..] == f[i..|f|];
    if Viable(f[i..]) {
      BeginsWithLess(f[i..]);
    }
    if f[i] == '<' {
      var m := MatchLeadIn(f, i + 1, 1);
      MatchDecides(f, i);
      hide MatchLeadIn, Viable;
      if !m.Unfinished? {
        DecidedIsNotOpen(f, i, End(m));
      }
    }
  }

  lemma DecidedIsNotOpen(f: string, i: nat, e: nat)
    requires i < e <= |f| && Decided(f[i..e])
    ensures !Viable(f[i..|f|])
  {
    hide Viable, Decided;
    var s := f[i..|f|];
    assert s[..e - i] == f[i..e];
    DecidedIsNotViable(f[i..e]);
    if Viable(s) {
      FrontIsViable(s, e - i);
    }
  }

  // ---------- The file in pieces ----------

  /** A character that begins no tag; a tag; a false start; and the end of a file within what could
      have become a tag. */
  datatype Piece = Plain(c: char) | Met(text: string, name: string) | Failed(text: string) | Open(text: string)

  function TextOf(piece: Piece): (r: string)
  {
    if piece.Plain? then [piece.c] else piece.text
  }

  ghost predicate Proper(piece: Piece)
  {
    match piece
    case Plain(c) => c != '<'
    case Met(text, name) => IsTag(text, name)
    case Failed(text) => FalseStart(text)
    case Open(text) => Viable(text)
  }

  /** Proper pieces; only the last one may be an open end. */
  ghost predicate Pieced(pieces: seq<Piece>)
  {
    forall k :: 0 <= k < |pieces| ==> Proper(pieces[k]) && (pieces[k].Open? ==> k == |pieces| - 1)
  }

  predicate NoneOpen(pieces: seq<Piece>)
  {
    forall k :: 0 <= k < |pieces| ==> !pieces[k].Open?
  }

  function Flat(pieces: seq<Piece>): (f: string)
  {
    if pieces == [] then "" else TextOf(pieces[0]) + Flat(pieces[1..])
  }

  /** The pieces, with the insert behind each tag among them. */
  function WithInserts(site: Site, pieces: seq<Piece>, n: nat): (r: string)
  {
    if pieces == [] then ""
    else if pieces[0].Met? then
      pieces[0].text + Insert(site, n, pieces[0].name) + WithInserts(site, pieces[1..], n + 1)
    else TextOf(pieces[0]) + WithInserts(site, pieces[1..], n)
  }

  function Tags(pieces: seq<Piece>): (n: nat)
  {
    if pieces == [] then 0 else Tags(pieces[1..]) + if pieces[0].Met? then 1 else 0
  }

  lemma ProperIsNotEmpty(piece: Piece)
    requires Proper(piece)
    ensures TextOf(piece) != ""
  {
    hide Viable;
    if piece.Met? {
      BeginsWithLess(piece.text);
    } else if piece.Open? {
      BeginsWithLess(piece.text);
    }
  }

  lemma Cut(f: string, i: nat, j: nat, a: string, b: string)
    requires i <= j <= |f| && f[i..j] == a + b
    ensures i + |a| <= j && f[i..i + |a|] == a && f[i + |a|..j] == b
  {
    assert f[i..i + |a|] == f[i..j][..|a|];
    assert f[i + |a|..j] == f[i..j][|a|..];
  }

  lemma PiecedRest(pieces: seq<Piece>)
    requires Pieced(pieces) && pieces != []
    ensures Proper(pieces[0]) && Pieced(pieces[1..])
    ensures pieces[0].Open? ==> pieces[1..] == []
  {
    hide Proper;
    forall k | 0 <= k < |pieces[1..]|
      ensures Proper(pieces[1..][k]) && (pieces[1..][k].Open? ==> k == |pieces[1..]| - 1)
    {
      assert pieces[1..][k] == pieces[k + 1];
    }
  }

  lemma PiecedMore(piece: Piece, rest: seq<Piece>)
    requires Proper(piece) && !piece.Open? && Pieced(rest)
    ensures Pieced([piece] + rest) && Flat([piece] + rest) == TextOf(piece) + Flat(rest)
    ensures NoneOpen(rest) ==> NoneOpen([piece] + rest)
  {
    hide Proper;
    var pieces := [piece] + rest;
    assert pieces[1..] == rest;
    assert forall k :: 0 < k < |pieces| ==> pieces[k] == rest[k - 1];
  }

  /** Where the search stands at the first piece, it goes on behind it. */
  lemma PieceText(site: Site, f: string, i: nat, piece: Piece, e: nat, n: nat)
    requires Proper(piece) && i < e <= |f| && f[i..e] == TextOf(piece) && (piece.Open? ==> e == |f|)
    ensures Text(site, f, i, n, false) == TextOf(piece)
            + (if piece.Met? then Insert(site, n, piece.name) + Text(site, f, e, n + 1, false)
               else if piece.Open? then "" else Text(site, f, e, n, false))
  {
    hide MatchLeadIn, IsTag, Viable, FalseStart, Insert;
    assert f[i] == f[i..e][0];
    match piece
    case Plain(c) =>
      assert e == i + 1;
    case Met(text, name) =>
      TagsAreRecognised(f, i, e, name);
      assert f[i..e] == [f[i]] + f[i + 1..e];
    case Failed(text) =>
      FalseStartFails(f, i, e);
      assert f[i..e] == [f[i]] + f[i + 1..e];
    case Open(text) =>
      assert f[i..] == f[i..e];
      OpenIsUnfinished(f, i);
      assert f[i..e] == [f[i]] + f[i + 1..];
  }

  /** However a file falls into pieces, what is sent is the pieces with an insert behind each tag among
      them. */
  lemma {:induction false} PiecesGiveText(site: Site, f: string, i: nat, pieces: seq<Piece>, n: nat)
    requires i <= |f| && Pieced(pieces) && f[i..] == Flat(pieces)
    ensures Text(site, f, i, n, false) == WithInserts(site, pieces, n)
    decreases |pieces|
  {
    hide Proper, Pieced, Insert, Text;
    if pieces == [] {
      TextAtEnd(site, f, n);
    } else {
      var piece := pieces[0];
      var text := TextOf(piece);
      var e := i + |text|;
      PiecedRest(pieces);
      ProperIsNotEmpty(piece);
      assert f[i..] == f[i..|f|];
      Cut(f, i, |f|, text, Flat(pieces[1..]));
      PieceText(site, f, i, piece, e, n);
      if !piece.Open? {
        PiecesGiveText(site, f, e, pieces[1..], if piece.Met? then n + 1 else n);
      }
    }
  }

  lemma TextAtEnd(site: Site, f: string, n: nat)
    ensures Text(site, f, |f|, n, false) == ""
  {
  }

  /** Every file falls into pieces. */
  lemma {:induction false} FallsIntoPieces(f: string, i: nat) returns (pieces: seq<Piece>)
    requires i <= |f|
    ensures Pieced(pieces) && Flat(pieces) == f[i..]
    decreases |f| - i
  {
    hide Proper, Pieced, Flat;
    if i == |f| {
      pieces := [];
      NoPieces();
    } else {
      var piece, e := NextPiece(f, i);
      if piece.Open? {
        pieces := [piece];
        OnePiece(piece);
      } else {
        var rest := FallsIntoPieces(f, e);
        pieces := [piece] + rest;
        PiecedMore(piece, rest);
        assert f[i..] == f[i..e] + f[e..];
      }
    }
  }

  lemma NoPieces()
    ensures Pieced([]) && NoneOpen([]) && Flat([]) == ""
  {
  }

  lemma OnePiece(piece: Piece)
    requires Proper(piece)
    ensures Pieced([piece]) && Flat([piece]) == TextOf(piece)
  {
    var pieces := [piece];
    assert pieces[1..] == [];
  }

  lemma NextPiece(f: string, i: nat) returns (piece: Piece, e: nat)
    requires i < |f|
    ensures i < e <= |f| && Proper(piece) && TextOf(piece) == f[i..e] && (piece.Open? ==> e == |f|)
    ensures f[i] != '<' ==> e == i + 1 && piece.Plain?
    ensures f[i] == '<' ==> var m := MatchLeadIn(f, i + 1, 1);
                            piece.Open? == m.Unfinished? && (!m.Unfinished? ==> e == End(m))
  {
    if f[i] != '<' {
      piece, e := Plain(f[i]), i + 1;
    } else {
      MatchDecides(f, i);
      hide MatchLeadIn, IsTag, Viable, FalseStart;
      var m := MatchLeadIn(f, i + 1, 1);
      e := if m.Unfinished? then |f| else End(m);
      piece := if m.Tag? then Met(f[i..e], m.name) else if m.NoTag? then Failed(f[i..e]) else Open(f[i..e]);
    }
  }

  // ---------- The insert that is lost ----------

  /** The insert of the last piece, if that is a tag. */
  function LastInsert(site: Site, pieces: seq<Piece>, n: nat): (r: string)
  {
    if pieces == [] then ""
    else if |pieces| == 1 then (if pieces[0].Met? then Insert(site, n, pieces[0].name) else "")
    else LastInsert(site, pieces[1..], if pieces[0].Met? then n + 1 else n)
  }

  /** That is: the answer to the call that counts the tags in front of it. */
  lemma {:induction false} LastInsertIs(site: Site, pieces: seq<Piece>, n: nat)
    requires pieces != []
    ensures var last := pieces[|pieces| - 1];
            LastInsert(site, pieces, n)
            == if last.Met? then Insert(site, n + Tags(pieces[..|pieces| - 1]), last.name) else ""
    decreases |pieces|
  {
    hide Insert;
    var k := |pieces| - 1;
    if k == 0 {
      assert pieces[..k] == [];
    } else {
      LastInsertIs(site, pieces[1..], if pieces[0].Met? then n + 1 else n);
      assert pieces[1..][..k - 1] == pieces[..k][1..];
    }
  }

  lemma PieceEndInsert(site: Site, f: string, i: nat, piece: Piece, e: nat, n: nat)
    requires Proper(piece) && i < e <= |f| && f[i..e] == TextOf(piece) && (piece.Open? ==> e == |f|)
    ensures EndInsert(site, f, i, n)
            == if piece.Open? then ""
               else if piece.Met? && e == |f| then Insert(site, n, piece.name)
               else EndInsert(site, f, e, if piece.Met? then n + 1 else n)
  {
    hide MatchLeadIn, IsTag, Viable, FalseStart, Insert;
    assert f[i] == f[i..e][0];
    match piece
    case Plain(c) =>
    case Met(text, name) => TagsAreRecognised(f, i, e, name);
    case Failed(text) => FalseStartFails(f, i, e);
    case Open(text) =>
      assert f[i..] == f[i..e];
      OpenIsUnfinished(f, i);
  }

  /** The insert that gets lost is that of the last piece, if that is a tag. */
  lemma {:induction false} EndInsertOfPieces(site: Site, f: string, i: nat, pieces: seq<Piece>, n: nat)
    requires i <= |f| && Pieced(pieces) && f[i..] == Flat(pieces)
    ensures EndInsert(site, f, i, n) == LastInsert(site, pieces, n)
    decreases |pieces|
  {
    hide Proper, Pieced, Insert, MatchLeadIn;
    if pieces != [] {
      var piece, rest := pieces[0], pieces[1..];
      var text := TextOf(piece);
      var e, n' := i + |text|, if piece.Met? then n + 1 else n;
      PiecedRest(pieces);
      ProperIsNotEmpty(piece);
      assert f[i..] == f[i..|f|];
      Cut(f, i, |f|, text, Flat(rest));
      PieceEndInsert(site, f, i, piece, e, n);
      if rest != [] {
        PiecedRest(rest);
        ProperIsNotEmpty(rest[0]);
      }
      if !piece.Open? {
        EndInsertOfPieces(site, f, e, rest, n');
      }
    }
  }

  // ---------- Which tags the search reaches ----------

  /** The search, going on at `from`, comes to look for the beginning of a tag at i. */
  predicate Reaches(f: string, from: nat, i: nat)
    requires from <= |f|
    decreases |f| - from
  {
    || from == i
    || (&& from < i && from < |f|
        && if f[from] != '<' then Reaches(f, from + 1, i)
           else
             var m := MatchLeadIn(f, from + 1, 1);
             !m.Unfinished? && Reaches(f, End(m), i))
  }

  /** The search goes on behind a piece. */
  lemma ReachesBehind(f: string, from: nat, piece: Piece, e: nat, i: nat)
    requires Proper(piece) && !piece.Open? && from < e <= |f| && f[from..e] == TextOf(piece) && from < i
    ensures Reaches(f, from, i) <==> Reaches(f, e, i)
  {
    hide MatchLeadIn, IsTag, Viable, FalseStart;
    assert f[from] == f[from..e][0];
    match piece
    case Plain(c) =>
    case Met(text, name) => TagsAreRecognised(f, from, e, name);
    case Failed(text) => FalseStartFails(f, from, e);
  }

  lemma {:induction false} NotBackwards(f: string, from: nat, i: nat)
    requires from <= |f| && Reaches(f, from, i)
    ensures from <= i <= |f|
    decreases |f| - from
  {
    if from < i {
      if f[from] != '<' {
        NotBackwards(f, from + 1, i);
      } else {
        NotBackwards(f, End(MatchLeadIn(f, from + 1, 1)), i);
      }
    }
  }

  /** If what stands in front of a position falls into pieces without an open end, the search reaches
      the position. */
  lemma {:induction false} PiecesAreReached(f: string, from: nat, i: nat, pieces: seq<Piece>)
    requires from <= i <= |f| && Pieced(pieces) && NoneOpen(pieces) && Flat(pieces) == f[from..i]
    ensures Reaches(f, from, i)
    decreases |pieces|
  {
    hide Proper, Pieced, Reaches;
    if pieces == [] {
      ReachesHere(f, i);
    } else {
      var text, rest := TextOf(pieces[0]), pieces[1..];
      var e := from + |text|;
      PiecedRest(pieces);
      ProperIsNotEmpty(pieces[0]);
      Cut(f, from, i, text, Flat(rest));
      PiecesAreReached(f, e, i, rest);
      ReachesBehind(f, from, pieces[0], e, i);
    }
  }

  lemma ReachesHere(f: string, i: nat)
    requires i <= |f|
    ensures Reaches(f, i, i)
  {
  }

  lemma ReachedIsNotOpen(f: string, from: nat, i: nat)
    requires from < |f| && from < i && Reaches(f, from, i) && f[from] == '<'
    ensures !MatchLeadIn(f, from + 1, 1).Unfinished?
  {
  }

  /** And if the search reaches a position, what stands in front of it falls into such pieces. */
  lemma {:induction false} ReachedThroughPieces(f: string, from: nat, i: nat) returns (pieces: seq<Piece>)
    requires from <= |f| && Reaches(f, from, i)
    ensures from <= i <= |f| && Pieced(pieces) && NoneOpen(pieces) && Flat(pieces) == f[from..i]
    decreases |f| - from
  {
    hide *;
    NotBackwards(f, from, i);
    if from == i {
      pieces := [];
      NoPieces();
      assert f[from..i] == "";
    } else {
      var piece, e := NextPiece(f, from);
      if f[from] == '<' {
        ReachedIsNotOpen(f, from, i);
      }
      ReachesBehind(f, from, piece, e, i);
      var rest := ReachedThroughPieces(f, e, i);
      pieces := [piece] + rest;
      PiecedMore(piece, rest);
      assert f[from..i] == f[from..e] + f[e..i];
    }
  }

  /** What stands in front of i falls into plain characters, tags and false starts. */
  ghost predicate Clear(f: string, i: nat)
    requires i <= |f|
  {
    exists pieces :: Pieced(pieces) && NoneOpen(pieces) && Flat(pieces) == f[..i]
  }

  /** The search reaches a position exactly if the text in front of it, taken by itself, falls into
      plain characters, tags and false starts. */
  lemma ReachedExactly(f: string, i: nat)
    requires i <= |f|
    ensures Reaches(f, 0, i) <==> Clear(f, i)
  {
    hide Reaches, Pieced;
    assert f[0..i] == f[..i];
    if Reaches(f, 0, i) {
      var pieces := ReachedThroughPieces(f, 0, i);
    }
    if pieces :| Pieced(pieces) && NoneOpen(pieces) && Flat(pieces) == f[..i] {
      PiecesAreReached(f, 0, i, pieces);
    }
  }

  lemma {:induction false} TextInFront(site: Site, f: string, from: nat, i: nat, pieces: seq<Piece>, n: nat)
    requires from <= i <= |f| && Pieced(pieces) && NoneOpen(pieces) && Flat(pieces) == f[from..i]
    ensures Text(site, f, from, n, false)
            == WithInserts(site, pieces, n) + Text(site, f, i, n + Tags(pieces), false)
    decreases |pieces|
  {
    hide Proper, Pieced, Insert, Text;
    if pieces != [] {
      var piece, rest := pieces[0], pieces[1..];
      var text := TextOf(piece);
      var e := from + |text|;
      PiecedRest(pieces);
      ProperIsNotEmpty(piece);
      Cut(f, from, i, text, Flat(rest));
      var n' := if piece.Met? then n + 1 else n;
      PieceText(site, f, from, piece, e, n);
      TextInFront(site, f, e, i, rest, n');
      var insert := if piece.Met? then Insert(site, n, piece.name) else "";
      WithInsertsFirst(site, pieces, n);
      hide WithInserts, Tags;
      Regroup(text, insert, WithInserts(site, rest, n'), Text(site, f, i, n + Tags(pieces), false));
    }
  }

  lemma WithInsertsFirst(site: Site, pieces: seq<Piece>, n: nat)
    requires pieces != []
    ensures var met := pieces[0].Met?;
            && WithInserts(site, pieces, n)
               == TextOf(pieces[0]) + (if met then Insert(site, n, pieces[0].name) else "")
                  + WithInserts(site, pieces[1..], if met then n + 1 else n)
            && Tags(pieces) == Tags(pieces[1..]) + if met then 1 else 0
  {
    hide Insert;
  }

  lemma Regroup(a: string, b: string, c: string, d: string)
    ensures a + (b + (c + d)) == a + b + c + d
    ensures b == "" ==> a + (c + d) == a + b + c + d
  {
  }

  /** A tag that the search reaches is followed by its insert: the handler's answer to the call that
      counts the tags in front of it. */
  lemma ReachedTagIsFilled(site: Site, f: string, i: nat, end: nat, name: string, pieces: seq<Piece>)
    requires i < end <= |f| && IsTag(f[i..end], name)
    requires Pieced(pieces) && NoneOpen(pieces) && Flat(pieces) == f[..i]
    ensures Text(site, f, 0, 0, false)
            == WithInserts(site, pieces, 0) + f[i..end] + Insert(site, Tags(pieces), name)
               + Text(site, f, end, Tags(pieces) + 1, false)
  {
    hide Insert, Text, Pieced;
    assert f[0..i] == f[..i];
    TextInFront(site, f, 0, i, pieces, 0);
    PieceText(site, f, i, Met(f[i..end], name), end, Tags(pieces));
  }

  // ---------- Tags without an insert ----------

  const STRAY := "<<!--#a-->x"

  /** A stray '<' in front of a tag takes its insert away: the search goes on behind the character with
      which "<<" fails, which is the first one of the tag. */
  lemma StrayLess(site: Site)
    ensures IsTag(STRAY[1..10], "a") && !Reaches(STRAY, 0, 1)
    ensures Text(site, STRAY, 0, 0, false) == STRAY
  {
    assert STRAY[1..10] == TagText("", "a", "");
    assert MatchLeadIn(STRAY, 1, 1) == NoTag(2);
    assert STRAY[1..2] == "<";
    NoMoreTags(site, STRAY, 2, 0);
    assert STRAY == "<" + "<" + STRAY[2..];
  }

  lemma {:induction false} NoMoreTags(site: Site, f: string, i: nat, n: nat)
    requires i <= |f| && forall k :: i <= k < |f| ==> f[k] != '<'
    ensures Text(site, f, i, n, false) == f[i..]
    decreases |f| - i
  {
    if i < |f| {
      NoMoreTags(site, f, i + 1, n);
      assert f[i..] == [f[i]] + f[i + 1..];
    }
  }

  const LAST := "<!--#a-->"

  /** The insert of a tag that is the end of the file gets lost. */
  lemma TagAtTheEnd(site: Site)
    ensures Text(site, LAST, 0, 0, true) == LAST
    ensures EndInsert(site, LAST, 0, 0) == Insert(site, 0, "a")
    ensures Text(site, LAST, 0, 0, false) == LAST + Insert(site, 0, "a")
  {
    hide Insert;
    assert LAST[0..9] == TagText("", "a", "");
    assert IsTag(LAST[0..9], "a");
    TagsAreRecognised(LAST, 0, 9, "a");
    hide MatchLeadIn;
    assert LAST[1..9] == "!--#a-->";
    CutText(site, LAST, 0, 0);
  }
}
