/**
 The text handling of `run_check`: cutting the `systemctl --failed` output
 into the header and the first bullet line, recording that line, and
 assembling the mail. The command's output and the host name are
 parameters; spawning `systemctl`, `echo` and `sendmail` is not modelled.
 */
module Check {
  import opened Wrappers
  import opened Text
  import opened Units

  /** The listing cut in three: `pre` before the first bullet, `line` from
      that bullet up to (not including) the next newline, and the `rest`. */
  datatype Listing = Listing(pre: string, line: string, rest: string)

  /** What makes `p` the cut `run_check` performs on `listing`: nothing lost,
      `pre` free of bullets, `line` a single line that starts at a bullet
      (or is empty, and then nothing follows), `rest` starting at the newline. */
  ghost predicate IsListingSplit(listing: string, p: Listing) {
    && p.pre + p.line + p.rest == listing
    && Bullet !in p.pre
    && Newline !in p.line
    && (p.line == [] ==> p.rest == [])
    && (p.line != [] ==> p.line[0] == Bullet)
    && (p.rest != [] ==> p.rest[0] == Newline)
  }

  /** The two `drain`s of `run_check`: up to the first `●`, then up to the next `\n`. */
  function SplitListing(listing: string): (p: Listing)
    ensures IsListingSplit(listing, p)
    ensures p.line == [] <==> Bullet !in listing
  {
    var b := FindOrLen(listing, Bullet);
    var nl := FindOrLen(listing[b..], Newline);
    SplitAt(listing, b, nl);
    EmptyLineIffNoBullet(listing, Listing(listing[..b], listing[b..][..nl], listing[b..][nl..]));
    Listing(listing[..b], listing[b..][..nl], listing[b..][nl..])
  }

  lemma SplitAt(listing: string, b: nat, nl: nat)
    requires b == FindOrLen(listing, Bullet) && nl == FindOrLen(listing[b..], Newline)
    ensures IsListingSplit(listing, Listing(listing[..b], listing[b..][..nl], listing[b..][nl..]))
  {
    var tail := listing[b..];
    var pre := listing[..b];
    var line := tail[..nl];
    var rest := tail[nl..];
    TakeDrop(listing, b);
    TakeDrop(tail, nl);
    assert pre + line + rest == listing;
    if line != [] {
      assert line[0] == tail[0];
    }
  }

  /** Under such a cut the line is empty exactly when the listing has no bullet. */
  lemma EmptyLineIffNoBullet(listing: string, p: Listing)
    requires IsListingSplit(listing, p)
    ensures p.line == [] <==> Bullet !in listing
  {
    if p.line != [] {
      assert listing[|p.pre|] == p.line[0];
    }
  }

  /** The properties of `IsListingSplit` leave no choice: they pin down the cut. */
  lemma SplitListingUnique(listing: string, p: Listing)
    requires IsListingSplit(listing, p)
    ensures p == SplitListing(listing)
  {
    var tail := p.line + p.rest;
    AppendParts(listing, p.pre, tail);
    if p.line == [] {
      assert listing == p.pre;
    } else {
      assert listing[|p.pre|] == Bullet;
      FindOrLenUnique(listing, Bullet, |p.pre|);
      AppendParts(tail, p.line, p.rest);
      if p.rest == [] {
        assert tail == p.line;
      } else {
        assert tail[|p.line|] == Newline;
        FindOrLenUnique(tail, Newline, |p.line|);
      }
    }
  }

  /** The fixed mail header, with the recipient and the host substituted.
      It is addressed to `mail` and closes with the empty line that ends the
      header block, so whatever follows it is the mail body. */
  function MailHeader(mail: string, hostname: string): (h: string)
    ensures |h| >= 4 + |mail| && h[..4 + |mail|] == "To: " + mail
    ensures h[|h| - 4..] == "\r\n\r\n"
  {
    "To: " + mail + "\r\nFrom: systemd <root@" + hostname + ">\r\n"
    + "Content-Transfer-Encoding: 8bit\r\nContent-Type: text/plain; charset=UTF-8\r\n"
    + "Subject: Failed Systemd-Unit\r\n\r\n"
  }

  /** `body` is the listing up to the end of the line holding its first
      bullet: a prefix of the listing, containing a bullet, with no newline
      after that bullet, and ending where the listing ends or a newline starts. */
  ghost predicate QuotesFirstBulletLine(listing: string, body: string) {
    && |body| <= |listing| && body == listing[..|body|]
    && Bullet in body
    && Newline !in body[FindOrLen(body, Bullet)..]
    && (|body| == |listing| || listing[|body|] == Newline)
  }

  /** The header and the first bullet line together are such a quote. */
  lemma QuoteOfSplit(listing: string, p: Listing)
    requires IsListingSplit(listing, p) && p.line != []
    ensures QuotesFirstBulletLine(listing, p.pre + p.line)
  {
    var body := p.pre + p.line;
    AppendParts(listing, body, p.rest);
    AppendParts(body, p.pre, p.line);
    assert body[|p.pre|] == Bullet;
    FindOrLenUnique(body, Bullet, |p.pre|);
  }

  /** `QuotesFirstBulletLine` picks out a single text. */
  lemma QuoteUnique(listing: string, b1: string, b2: string)
    requires QuotesFirstBulletLine(listing, b1) && QuotesFirstBulletLine(listing, b2)
    ensures b1 == b2
  {
  }

  /** What a check run yields: the failed-unit record it returns, and the
      mail text it hands to `echo -e | sendmail`, if it sends one. */
  datatype Outcome = Outcome(units: FailedUnits, message: Option<string>)

  /** `run_check`, with the output of `systemctl --failed` and the host name
      as parameters. Only the first bullet line is ever recorded. */
  function RunCheck(listing: string, mail: string, hostname: string): (o: Outcome)
    ensures Valid(o.units)
    ensures o.units.number == (if Bullet in listing then 1 else 0)
    ensures o.message.Some? <==> Bullet in listing
    ensures Bullet !in listing ==> o.units == New()
    ensures Bullet in listing ==> o.units == AddFailed(New(), SplitListing(listing).line)
    ensures |o.units.names| <= 1
    ensures o.message.Some? ==>
      var h := MailHeader(mail, hostname);
      && |h| <= |o.message.value|
      && o.message.value[..|h|] == h
      && QuotesFirstBulletLine(listing, o.message.value[|h|..])
  {
    var p := SplitListing(listing);
    if p.line == [] then Outcome(New(), None)
    else
      var h := MailHeader(mail, hostname);
      var body := p.pre + p.line;
      QuoteOfSplit(listing, p);
      AppendParts(h + body, h, body);
      Outcome(AddFailed(New(), p.line), Some(h + body))
  }

  /** The mail is the header followed by the one quote of the listing up to
      the end of its first bullet line, which is the text before the bullet
      followed by that line. */
  lemma RunCheckMail(listing: string, mail: string, hostname: string, body: string)
    requires QuotesFirstBulletLine(listing, body)
    ensures RunCheck(listing, mail, hostname).message == Some(MailHeader(mail, hostname) + body)
    ensures body == SplitListing(listing).pre + SplitListing(listing).line
  {
    var p := SplitListing(listing);
    var h := MailHeader(mail, hostname);
    assert body[FindOrLen(body, Bullet)] == listing[FindOrLen(body, Bullet)];
    var m := RunCheck(listing, mail, hostname).message;
    assert m.Some?;
    AppendParts(m.value, h, m.value[|h|..]);
    QuoteUnique(listing, body, m.value[|h|..]);
    QuoteOfSplit(listing, p);
    QuoteUnique(listing, body, p.pre + p.line);
  }

  /** The unit name recorded by a run is the one `HasName` finds in the
      first bullet line; no name is recorded when that line has none. */
  lemma RunCheckName(listing: string, mail: string, hostname: string, n: string)
    ensures RunCheck(listing, mail, hostname).units.names == [n]
      <==> HasName(SplitListing(listing).line, n)
  {
    var line := SplitListing(listing).line;
    var names := RunCheck(listing, mail, hostname).units.names;
    ExtractNameIff(line, n);
    if Bullet in listing {
      var e := ExtractName(line);
      if e.Some? {
        assert names == [e.value];
      } else {
        assert names == [];
      }
    } else {
      assert line == [];
      assert names == [];
    }
  }

  /** The run summary that ends up in the log: no failed units, or exactly
      one bracketed name (empty brackets when the bullet line held none). */
  lemma RunCheckSummary(listing: string, mail: string, hostname: string)
    ensures var u := RunCheck(listing, mail, hostname).units;
      && (Bullet !in listing ==> Render(u) == NoneText)
      && (Bullet in listing && u.names == [] ==> Render(u) == Opening + Closing)
      && (Bullet in listing && u.names != [] ==> Render(u) == Opening + u.names[0] + Closing)
  {
    var u := RunCheck(listing, mail, hostname).units;
    if Bullet in listing {
      RenderOneUnit(u);
    }
  }

  /** A listing whose first bullet line is `● <unit> <tail>` gets a mail
      quoting the listing up to the end of that line, and records `<unit>`
      alone, whatever follows on later lines. */
  lemma RunCheckFirstUnit(head: string, unit: string, tail: string, more: string,
                          mail: string, hostname: string)
    requires Bullet !in head
    requires Space !in unit && Newline !in unit && Newline !in tail
    requires more == [] || more[0] == Newline
    ensures var line := [Bullet, Space] + unit + [Space] + tail;
      var o := RunCheck(head + line + more, mail, hostname);
      && o.units == FailedUnits(1, [line], [unit])
      && o.message == Some(MailHeader(mail, hostname) + (head + line))
      && Render(o.units) == Opening + unit + Closing
  {
    var line := [Bullet, Space] + unit + [Space] + tail;
    var listing := head + line + more;
    NotInAppend(Newline, [Bullet, Space], unit);
    NotInAppend(Newline, [Bullet, Space] + unit, [Space]);
    NotInAppend(Newline, [Bullet, Space] + unit + [Space], tail);
    assert line[0] == Bullet;
    SplitListingUnique(listing, Listing(head, line, more));
    ExtractNameOfUnitLine([], unit, tail);
    EmptyAppend(line);
    var o := RunCheck(listing, mail, hostname);
    assert o.units == AddFailed(New(), line);
    assert o.units.names == [unit];
    RunCheckSummary(listing, mail, hostname);
  }

  /** When the first bullet line holds no second space, the run still counts
      one failed unit and keeps the line, but records no name: `names` ends up
      shorter than `messages`, and the summary shows empty brackets. */
  lemma RunCheckUnnamed(head: string, unit: string, more: string, mail: string, hostname: string)
    requires Bullet !in head
    requires Space !in unit && Newline !in unit
    requires more == [] || more[0] == Newline
    ensures var line := [Bullet, Space] + unit;
      var o := RunCheck(head + line + more, mail, hostname);
      && o.units == FailedUnits(1, [line], [])
      && o.message.Some?
      && Render(o.units) == Opening + Closing
  {
    var line := [Bullet, Space] + unit;
    var listing := head + line + more;
    NotInAppend(Newline, [Bullet, Space], unit);
    assert line[0] == Bullet;
    SplitListingUnique(listing, Listing(head, line, more));
    ExtractNameOfBareUnit(unit);
    RunCheckSummary(listing, mail, hostname);
  }

  /** A `systemctl --failed` listing with one failed unit: the unit is
      recorded and summarised as `Failed Units: [ nginx.service ]`. */
  lemma RunCheckNginx(mail: string, hostname: string)
    ensures var o := RunCheck("UNIT LOAD\n" + ([Bullet, Space] + "nginx.service" + [Space] + "loaded failed") + "\n",
                              mail, hostname);
      && o.units.number == 1
      && o.units.names == ["nginx.service"]
      && Render(o.units) == Opening + "nginx.service" + Closing
  {
    var head := "UNIT LOAD\n";
    var unit := "nginx.service";
    var tail := "loaded failed";
    assert Bullet !in head by {
      assert forall k :: 0 <= k < |head| ==> head[k] != Bullet;
    }
    assert Newline !in tail by {
      assert forall k :: 0 <= k < |tail| ==> tail[k] != Newline;
    }
    assert Space !in unit && Newline !in unit by {
      assert forall k :: 0 <= k < |unit| ==> unit[k] != Space && unit[k] != Newline;
    }
    RunCheckFirstUnit(head, unit, tail, "\n", mail, hostname);
  }
}
