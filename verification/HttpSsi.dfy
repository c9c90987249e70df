/** `http_send` for files with server-side includes, under a send buffer that may take any
    amount at any time. */
module HttpSsi {
  import opened SsiText
  import opened SsiParser
  import opened SsiPieces

  datatype Err = Ok | Mem | Other

  class Connection {
    const site: Site
    /** The file; it is one block, so `fs_bytes_left` is zero from the start. */
    const f: string

    // struct http_state, with the pointers as offsets into the file
    var file: nat
    var left: nat
    var closed: bool
    // struct http_ssi_state
    var parsed: nat
    var parseLeft: nat
    var tagState: TagState
    var tagIndex: nat
    var tagName: string
    var tagEnd: nat
    var tagInsert: string

    /** Calls of the insert handler so far. */
    var calls: nat

    /** The bytes TCP took, and whether TCP has ever refused data or had no room. */
    ghost var sent: string
    ghost var hindered: bool

    ghost function Ps(): (ps: Parser)
      reads this
    {
      Parser(tagState, tagIndex, tagName)
    }

    /** The part of the current insert that waits to be sent. It is not sent at the end of the
        file. */
    ghost function Pending(): (r: string)
      reads this
    {
      if tagState == Sending && parsed < |f| && tagIndex <= |tagInsert| then tagInsert[tagIndex..] else ""
    }

    /** The positions and counters fit together. */
    ghost predicate Shaped()
      reads this
    {
      && file + left == |f|
      && parsed + parseLeft == |f|
      && file <= parsed
      && Consistent(Ps())
      && (tagState == Sending ==> tagEnd == parsed && tagIndex <= |tagInsert| && (file < tagEnd ==> tagIndex == 0))
      && (closed ==> left == 0)
    }

    /** What was sent, what was parsed and not sent, the waiting part of an insert, and what
        parsing on will give make the whole text. */
    ghost predicate Valid()
      reads this
    {
      && Shaped()
      && Whole(sent, f[file..parsed], Pending(), Future(site, f, parsed, Ps(), calls), Text(site, f, 0, 0, true))
    }

    /** `http_init_file` for a file that is checked for tags (not HTTP/0.9). */
    constructor (site: Site, f: string)
      ensures this.site == site && this.f == f
      ensures Valid() && sent == "" && !closed && !hindered
    {
      this.site, this.f := site, f;
      file, left, closed := 0, |f|, false;
      parsed, parseLeft := 0, |f|;
      tagState, tagIndex, tagName, tagEnd, tagInsert := NoneFound, 0, "", 0, "";
      calls, sent, hindered := 0, "", false;
    }

    // ---------- TCP ----------

    method Sndbuf() returns (n: nat)
      modifies this`hindered
      ensures n <= 0xffff && hindered == (old(hindered) || n == 0)
    {
      n :| 0 <= n <= 0xffff;
      hindered := hindered || n == 0;
    }

    method Mss() returns (n: nat)
      modifies this`hindered
      ensures n <= 0xffff && hindered == (old(hindered) || n == 0)
    {
      n :| 0 <= n <= 0xffff;
      hindered := hindered || n == 0;
    }

    /** `tcp_write` takes all of the data or nothing. */
    method TcpWrite(data: string) returns (err: Err)
      modifies this`sent, this`hindered
      ensures sent == old(sent) + if err == Ok then data else ""
      ensures hindered == (old(hindered) || err != Ok)
    {
      if * {
        sent := sent + data;
        err := Ok;
      } else {
        err :| err != Ok;
        hindered := true;
      }
    }

    /** `http_write`: try smaller and smaller lengths. */
    method HttpWrite(data: string) returns (err: Err, len: nat)
      modifies this`sent, this`hindered
      ensures old(hindered) || err != Ok ==> hindered
      ensures err == Ok ==> len <= |data| && sent == old(sent) + data[..len] && (data != "" ==> 0 < len)
      ensures err != Ok ==> sent == old(sent)
    {
      err, len := Ok, |data|;
      if len == 0 {
        return;
      }
      var again := true;
      while again
        invariant 0 <= len <= |data|
        invariant again ==> 0 < len && sent == old(sent)
        invariant old(hindered) || (!again && err != Ok) ==> hindered
        invariant !again ==> if err == Ok then 0 < len && sent == old(sent) + data[..len] else sent == old(sent)
        decreases again, len
      {
        err := TcpWrite(data[..len]);
        if err == Mem {
          var sndbuf := Sndbuf();
          var queueFull := *;
          if sndbuf == 0 || queueFull {
            len := 1;
          } else {
            len := len / 2;
          }
        }
        again := err == Mem && 1 < len;
      }
    }

    // ---------- Sending file data ----------

    /** Send bytes of the file from `file` on, at most limit of them and not past `parsed`. */
    method SendFile(limit: nat) returns (err: Err, len: nat)
      requires Valid() && 0 < limit && file + limit <= parsed && !closed
      modifies this`sent, this`hindered, this`file, this`left
      ensures Valid() && (old(hindered) ==> hindered)
      ensures err == Ok ==> file == old(file) + len && 0 < len && |sent| == |old(sent)| + len
      ensures err != Ok ==> file == old(file) && sent == old(sent) && hindered
    {
      hide Future, Text, Whole;
      err, len := HttpWrite(f[file..file + limit]);
      if err == Ok {
        assert f[file..parsed] == f[file..file + limit][..len] + f[file + len..parsed];
        SendMore(old(sent), f[file..file + limit][..len], f[file + len..parsed], Pending(),
                 Future(site, f, parsed, Ps(), calls), Text(site, f, 0, 0, true));
        file := file + len;
        left := left - len;
      }
    }

    /** As much of the parsed data as the send buffer and two segments hold. */
    method SendParsed() returns (err: Err, len: nat)
      requires Valid() && file < parsed && !closed
      modifies this`sent, this`hindered, this`file, this`left
      ensures Valid() && (old(hindered) ==> hindered)
      ensures err == Ok ==> |sent| == |old(sent)| + len
      ensures err != Ok ==> sent == old(sent)
      ensures !hindered ==> err == Ok && 0 < len
    {
      var sndbuf := Sndbuf();
      var limit := if sndbuf < parsed - file then sndbuf else parsed - file;
      var mss := Mss();
      if 2 * mss < limit {
        limit := 2 * mss;
      }
      if limit == 0 {
        return Ok, 0;
      }
      err, len := SendFile(limit);
    }

    // ---------- The tag parser ----------

    /** One round of the parser in the state NoneFound, LeadIn, Found or LeadOut, unless the
        character completes a tag. */
    method Parse()
      requires Valid() && tagState != Sending && 0 < parseLeft && !closed
      requires !(tagState == LeadOut && tagIndex == 2 && f[parsed] == LEAD_OUT[2])
      modifies this`parsed, this`parseLeft, this`tagState, this`tagIndex, this`tagName
      ensures Valid()
      ensures parseLeft == old(parseLeft) - 1 || (parseLeft == old(parseLeft) && old(tagState) == LeadIn && tagState == Found)
      ensures tagState != Sending
    {
      hide Future, Text, Whole;
      var c := f[parsed];
      if tagState == LeadIn && tagIndex == |LEAD_IN| {
        LeadInEnds(site, f, parsed, tagName, calls);
        tagIndex := 0;
        tagState := Found;
        return;
      }
      ParserStep(site, f, parsed, Ps(), calls);
      match tagState {
        case NoneFound =>
          if c == LEAD_IN[0] {
            tagState := LeadIn;
            tagIndex := 1;
          }
        case LeadIn =>
          if c == LEAD_IN[tagIndex] {
            tagIndex := tagIndex + 1;
          } else {
            tagState := NoneFound;
          }
        case Found =>
          ParseName(c);
        case LeadOut =>
          if tagIndex == 0 && Space(c) {
          } else if c == LEAD_OUT[tagIndex] {
            tagIndex := tagIndex + 1;
          } else {
            tagState := NoneFound;
          }
      }
      assert Ps() == Next(old(Ps()), c);
      assert f[file..parsed + 1] == f[file..parsed] + [c];
      ParseMore(sent, f[file..parsed], c, Future(site, f, parsed + 1, Ps(), calls), Text(site, f, 0, 0, true));
      parseLeft := parseLeft - 1;
      parsed := parsed + 1;
    }

    /** A character while the name of a tag is read. */
    method ParseName(c: char)
      requires tagState == Found && Consistent(Ps())
      modifies this`tagState, this`tagIndex, this`tagName
      ensures Ps() == Next(old(Ps()), c)
    {
      if tagIndex == 0 && Space(c) {
        return;
      }
      if c == LEAD_OUT[0] || Space(c) {
        if tagIndex == 0 {
          tagState := NoneFound;
        } else {
          tagState := LeadOut;
          tagName := tagName[..tagIndex];
          tagIndex := if c == LEAD_OUT[0] then 1 else 0;
        }
      } else if tagIndex < MAX_NAME {
        tagName := tagName[..tagIndex] + [c];
        tagIndex := tagIndex + 1;
      } else {
        tagState := NoneFound;
      }
    }

    /** The lead-out is complete: fetch the insert and turn to sending. */
    method TagComplete()
      requires Valid() && tagState == LeadOut && 0 < parseLeft && !closed
      requires tagIndex == 2 && f[parsed] == LEAD_OUT[2]
      modifies this`parsed, this`parseLeft, this`tagState, this`tagIndex, this`tagInsert, this`tagEnd, this`calls
      ensures Valid() && parseLeft == old(parseLeft) - 1
      ensures tagState == Sending && tagIndex == 0 && file < parsed
    {
      hide Text, Insert, Whole, Future;
      ghost var c, text := f[parsed], Text(site, f, 0, 0, true);
      TagEnds(site, f, parsed, tagName, calls);
      ghost var insert := if parsed + 1 == |f| then "" else Insert(site, calls, tagName);
      assert f[file..parsed + 1] == f[file..parsed] + [c];
      CompleteMore(sent, f[file..parsed], c, insert, Text(site, f, parsed + 1, calls + 1, true), text);
      parseLeft := parseLeft - 1;
      parsed := parsed + 1;
      tagInsert := Insert(site, calls, tagName);
      calls := calls + 1;
      tagIndex := 0;
      tagState := Sending;
      tagEnd := parsed;
      assert tagInsert[0..] == tagInsert;
      FutureOutside(site, f, parsed, Ps(), calls);
    }

    /** File bytes before the tag and bytes of the insert that wait to be sent. */
    ghost function Unsent(): (n: int)
      reads this
    {
      if tagState == Sending then (tagEnd - file) + (|tagInsert| - tagIndex) else 0
    }

    /** Send what is left of the file up to the tag, then the insert, then look for tags again. */
    method SendTag(budget: nat) returns (err: Err, len: nat, wrote: bool)
      requires Valid() && tagState == Sending && 0 < parseLeft && 0 < budget && !closed
      modifies this`sent, this`hindered, this`file, this`left, this`tagIndex, this`tagState
      ensures Valid() && (old(hindered) ==> hindered)
      ensures wrote == (err == Ok && |old(sent)| < |sent|) && (!wrote ==> sent == old(sent) && file == old(file))
      ensures err == Ok ==> 0 < len
      ensures err != Ok ==> hindered
      ensures tagState == NoneFound || (tagState == Sending && (err == Ok ==> Unsent() < old(Unsent())))
    {
      hide Text, Insert, Whole, Future;
      FutureOutside(site, f, parsed, Ps(), calls);
      if file < tagEnd {
        err, len := SendFile(if tagEnd - file < budget then tagEnd - file else budget);
        wrote := err == Ok;
      } else if tagIndex < |tagInsert| {
        var limit := if |tagInsert| - tagIndex < budget then |tagInsert| - tagIndex else budget;
        var chunk := tagInsert[tagIndex..tagIndex + limit];
        err, len := HttpWrite(chunk);
        wrote := err == Ok;
        if err == Ok {
          assert tagInsert[tagIndex..] == chunk[..len] + tagInsert[tagIndex + len..];
          assert f[file..parsed] == "";
          InsertMore(old(sent), chunk[..len], tagInsert[tagIndex + len..],
                     Text(site, f, parsed, calls, true), Text(site, f, 0, 0, true));
          tagIndex := tagIndex + len;
          FutureOutside(site, f, parsed, Ps(), calls);
        }
      } else {
        assert tagInsert[tagIndex..] == "";
        tagIndex := 0;
        tagState := NoneFound;
        FutureOutside(site, f, parsed, Ps(), calls);
        err, len, wrote := Ok, budget, false;
      }
    }

    /** The tag is complete: send the file up to its end, as far as the budget goes. */
    method CompleteAndSend(budget: nat) returns (err: Err, len: nat)
      requires Valid() && tagState == LeadOut && 0 < parseLeft && 0 < budget && !closed
      requires tagIndex == 2 && f[parsed] == LEAD_OUT[2]
      modifies this
      ensures Valid() && parseLeft == old(parseLeft) - 1 && !closed && (old(hindered) ==> hindered)
      ensures err == Ok ==> 0 < len && |sent| == |old(sent)| + len
      ensures err != Ok ==> sent == old(sent) && hindered
    {
      TagComplete();
      err, len := SendFile(if tagEnd - file < budget then tagEnd - file else budget);
    }

    predicate Busy()
      reads this`tagState
    {
      tagState == LeadIn || tagState == Sending
    }

    /** One round of the loop in `http_send_data_ssi`. */
    method Round(budget: nat) returns (err: Err, len: nat, wrote: bool)
      requires Valid() && 0 < parseLeft && 0 < budget && !closed
      modifies this
      ensures Valid() && !closed && (old(hindered) ==> hindered)
      ensures wrote <==> |old(sent)| < |sent|
      ensures !wrote ==> sent == old(sent) && (!hindered ==> file == old(file) && (tagState == Sending ==> 0 < parseLeft))
      ensures if err == Ok then 0 < len else hindered
      ensures err == Ok ==> (old(parseLeft), old(Busy()), old(Unsent()) decreases to parseLeft, Busy(), Unsent())
    {
      hide Future, Text, Whole, Next;
      if tagState == Sending {
        err, len, wrote := SendTag(budget);
      } else if tagState == LeadOut && tagIndex == 2 && f[parsed] == LEAD_OUT[2] {
        err, len := CompleteAndSend(budget);
        wrote := err == Ok;
      } else {
        Parse();
        err, len, wrote := Ok, budget, false;
      }
    }

    /** `http_send_data_ssi`. No byte goes unreported, and unless TCP refuses data or has no room,
        some bytes go out. */
    method SendDataSsi() returns (dataToSend: bool)
      requires Valid() && !closed && 0 < left
      modifies this
      ensures Valid() && !closed && (old(hindered) ==> hindered)
      ensures |old(sent)| <= |sent| && (!dataToSend ==> sent == old(sent))
      ensures !hindered ==> |old(sent)| < |sent|
    {
      hide Future, Text, Whole;
      dataToSend := false;
      var err := Ok;
      var len := Sndbuf();
      if file < parsed {
        err, len := SendParsed();
        dataToSend := err == Ok;
        var sndbuf := Sndbuf();
        if sndbuf == 0 {
          return;
        }
      }
      while 0 < parseLeft && err == Ok
        invariant Valid() && !closed && (old(hindered) ==> hindered)
        invariant |old(sent)| <= |sent| && (!dataToSend ==> sent == old(sent))
        invariant !hindered ==> err == Ok && 0 < len
        invariant !hindered && |old(sent)| == |sent| ==> file < |f| && (tagState == Sending ==> 0 < parseLeft)
        decreases err == Ok, parseLeft, Busy(), Unsent()
      {
        if len == 0 {
          return;
        }
        var wrote;
        err, len, wrote := Round(len);
        dataToSend := dataToSend || wrote;
      }
      if tagState != Sending && file < parsed {
        err, len := SendParsed();
        dataToSend := dataToSend || err == Ok;
      }
    }

    /** `http_send`. The connection is closed once all of the file is sent, and every call that TCP
        does not hinder brings that nearer. */
    method Send() returns (dataToSend: bool)
      requires Valid()
      modifies this
      ensures Valid() && (closed <==> left == 0) && (old(hindered) ==> hindered)
      ensures |old(sent)| <= |sent| && (sent != old(sent) ==> dataToSend || closed)
      ensures !hindered ==> closed || |old(sent)| < |sent|
    {
      hide Future, Text, Whole;
      if closed {
        return false;
      }
      if left == 0 {
        closed := true;
        return false;
      }
      dataToSend := SendDataSsi();
      if left == 0 {
        closed := true;
        return false;
      }
    }

    /** In every state the bytes taken are the beginning of the text, and all of it once the
        connection is closed. */
    lemma SentIsText()
      requires Valid()
      ensures sent <= Text(site, f, 0, 0, true)
      ensures closed ==> sent == Text(site, f, 0, 0, true)
    {
      WholeBegins(sent, f[file..parsed], Pending(), Future(site, f, parsed, Ps(), calls), Text(site, f, 0, 0, true));
      if closed {
        FutureAtEnd(site, f, Ps(), calls);
      }
    }
  }

  /** Any number of `http_send` calls, with any answers of TCP: the bytes taken are always a
      prefix of the file with each tag followed by its insert. When the connection is closed they
      are all of it, except for the insert of a tag that ends the file; and it gets closed, unless
      TCP refuses data or has no room. */
  method Serve(site: Site, f: string, rounds: nat) returns (conn: Connection)
    ensures fresh(conn) && conn.Valid() && conn.site == site && conn.f == f
    ensures conn.sent <= Text(site, f, 0, 0, false)
    ensures conn.closed ==> conn.sent + EndInsert(site, f, 0, 0) == Text(site, f, 0, 0, false)
    ensures conn.closed ==> (conn.sent == Text(site, f, 0, 0, false) <==> EndInsert(site, f, 0, 0) == "")
    ensures |Text(site, f, 0, 0, false)| < rounds && !conn.hindered ==> conn.closed
  {
    conn := new Connection(site, f);
    var n := 0;
    while n < rounds
      invariant fresh(conn) && conn.Valid() && conn.site == site && conn.f == f
      invariant n <= rounds && (!conn.hindered ==> conn.closed || n <= |conn.sent|)
    {
      var _ := conn.Send();
      n := n + 1;
    }
    conn.SentIsText();
    CutText(site, f, 0, 0);
  }

  /** From the pieces of the file: once the connection is closed, they were all sent with the insert
      behind each tag among them, except for the insert of the last piece, if that is a tag. */
  lemma ClosedSendsPieces(conn: Connection, pieces: seq<Piece>)
    requires conn.Valid() && conn.closed && Pieced(pieces) && Flat(pieces) == conn.f
    ensures conn.sent + LastInsert(conn.site, pieces, 0) == WithInserts(conn.site, pieces, 0)
  {
    hide Insert, Text, EndInsert, Pieced, Whole, Future;
    assert conn.f[0..] == conn.f;
    conn.SentIsText();
    CutText(conn.site, conn.f, 0, 0);
    EndInsertOfPieces(conn.site, conn.f, 0, pieces, 0);
    PiecesGiveText(conn.site, conn.f, 0, pieces, 0);
  }

  /** A file that is one tag is sent without the insert. */
  method LostInsert(site: Site, rounds: nat) returns (conn: Connection)
    ensures conn.closed ==> conn.sent == LAST && Text(site, LAST, 0, 0, false) == conn.sent + Insert(site, 0, "a")
    ensures |Text(site, LAST, 0, 0, false)| < rounds && !conn.hindered ==> conn.closed
  {
    hide Insert, Text, EndInsert;
    conn := Serve(site, LAST, rounds);
    TagAtTheEnd(site);
    assert conn.closed ==> conn.sent == LAST by {
      conn.SentIsText();
    }
  }

  lemma WholeBegins(sent: string, unsent: string, pending: string, future: string, text: string)
    requires Whole(sent, unsent, pending, future, text)
    ensures sent <= text
    ensures unsent == "" && pending == "" && future == "" ==> sent == text
  {
  }

  ghost predicate Whole(sent: string, unsent: string, pending: string, future: string, text: string)
  {
    sent + unsent + pending + future == text
  }

  /** Moving bytes from the parsed part to the sent part. */
  lemma SendMore(sent: string, chunk: string, unsent: string, pending: string, future: string, text: string)
    requires Whole(sent, chunk + unsent, pending, future, text)
    ensures Whole(sent + chunk, unsent, pending, future, text)
  {
    assert sent + chunk + unsent == sent + (chunk + unsent);
  }

  /** Moving a character from the future to the parsed part. */
  lemma ParseMore(sent: string, unsent: string, c: char, future: string, text: string)
    requires Whole(sent, unsent, "", [c] + future, text)
    ensures Whole(sent, unsent + [c], "", future, text)
  {
    assert sent + unsent + "" + ([c] + future) == sent + (unsent + [c]) + "" + future;
  }

  /** Moving the last character of a tag to the parsed part, its insert into place behind it. */
  lemma CompleteMore(sent: string, unsent: string, c: char, insert: string, future: string, text: string)
    requires Whole(sent, unsent, "", [c] + (insert + future), text)
    ensures Whole(sent, unsent + [c], insert, future, text)
  {
    assert sent + unsent + "" + ([c] + (insert + future)) == sent + (unsent + [c]) + insert + future;
  }

  /** Moving bytes from the insert to the sent part, all file data being sent. */
  lemma InsertMore(sent: string, chunk: string, rest: string, future: string, text: string)
    requires Whole(sent, "", chunk + rest, future, text)
    ensures Whole(sent + chunk, "", rest, future, text)
  {
    assert sent + "" + (chunk + rest) + future == sent + chunk + "" + rest + future;
  }
}
