/**
 The record of failed units a single check run collects, how one `systemctl`
 line is added to it, and how it is rendered for the log.
 */
module Units {
  import opened Wrappers
  import opened Text

  /** `number` counts the lines added, `messages` holds each added line as
      it came, `names` the unit names that could be parsed out of them. */
  datatype FailedUnits = FailedUnits(number: nat, messages: seq<string>, names: seq<string>)

  /** What every record built from `New` by `AddFailed` satisfies: one
      message per added line, and at most one name per added line. */
  predicate Valid(u: FailedUnits) {
    u.number == |u.messages| && |u.names| <= u.number
  }

  /** `FailedUnits::new`: nothing added yet. */
  function New(): (u: FailedUnits)
    ensures Valid(u)
    ensures u.number == 0 && u.names == []
  {
    FailedUnits(0, [], [])
  }

  /** The text from the first bullet on: the `drain(..beta_offset)` that
      throws away everything before the first `●` (or everything, if there is none). */
  function FromBullet(s: string): (st: string)
    ensures st == [] <==> Bullet !in s
    ensures st != [] ==> st[0] == Bullet
    ensures |st| <= |s| && st == s[|s| - |st|..] && Bullet !in s[..|s| - |st|]
  {
    s[FindOrLen(s, Bullet)..]
  }

  /** The unit name `add_failed` reads from a line: trim the leading whitespace,
      drop everything before the first `●`, and take the text between the
      first and the second space after it. `None` when either split fails. */
  function ExtractName(s: string): (r: Option<string>)
    ensures r == NameAfterBullet(FromBullet(s))
    ensures r.Some? ==> Space !in r.value
    ensures Bullet !in s ==> r.None?
  {
    FromBulletAfterTrim(s);
    NameAfterBullet(FromBullet(TrimStart(s)))
  }

  /** The two `split_once(' ')` steps on the drained text: the name is what
      lies between its first and its second space. */
  function NameAfterBullet(st: string): (r: Option<string>)
    ensures r.Some? ==> Space !in r.value
    ensures st == [] ==> r.None?
  {
    match SplitOnce(st, Space)
    case None => None
    case Some((_, ac)) =>
      match SplitOnce(ac, Space)
      case None => None
      case Some((ab, _)) => Some(ab)
  }

  /** `n` sits in `s` between the space at `j` and the next space, where `j`
      is the first space after the first bullet, at `i`. */
  ghost predicate IsNameAt(s: string, n: string, i: int, j: int) {
    && 0 <= i < j
    && j + 1 + |n| < |s|
    && s[i] == Bullet && Bullet !in s[..i]
    && s[j] == Space && Space !in s[i..j]
    && s[j + 1..j + 1 + |n|] == n
    && s[j + 1 + |n|] == Space
    && Space !in n
  }

  /** The line's unit name, stated by where it lies rather than by how it is cut out. */
  ghost predicate HasName(s: string, n: string) {
    exists i, j :: IsNameAt(s, n, i, j)
  }

  /** Leading whitespace never holds a bullet, so trimming it does not move
      the text that starts at the first bullet. */
  lemma FromBulletAfterTrim(s: string)
    ensures FromBullet(TrimStart(s)) == FromBullet(s)
  {
    var d := |s| - |TrimStart(s)|;
    TrimmedHasNoBullet(s);
    FindOrLenAfterPrefix(s, Bullet, d);
    assert TrimStart(s) == s[d..];
  }

  /** A bullet line split into its parts has its name where `IsNameAt` says. */
  lemma NameAtOfParts(s: string, i: nat, a: string, ac: string, n: string, rest: string)
    requires i < |s| && s[i] == Bullet && Bullet !in s[..i]
    requires s[i..] == a + [Space] + ac && ac == n + [Space] + rest
    requires |a| > 0 && Space !in a && Space !in n
    ensures IsNameAt(s, n, i, i + |a|)
  {
    var j := i + |a|;
    assert s[i..] == a + [Space] + n + [Space] + rest;
    assert s[i..j] == s[i..][..|a|];
    assert s[j + 1..j + 1 + |n|] == s[i..][|a| + 1..|a| + 1 + |n|];
  }

  /** Conversely, the parts around a name `IsNameAt` places. */
  lemma PartsOfNameAt(s: string, n: string, i: int, j: int)
    requires IsNameAt(s, n, i, j)
    ensures s[i..] == s[i..j] + [Space] + s[j + 1..]
    ensures s[j + 1..] == n + [Space] + s[j + 2 + |n|..]
  {
    assert s[i..] == s[i..j] + s[j..];
    assert s[j..] == [Space] + s[j + 1..];
    assert s[j + 1..] == s[j + 1..j + 1 + |n|] + s[j + 1 + |n|..];
    assert s[j + 1 + |n|..] == [Space] + s[j + 2 + |n|..];
  }

  /** Cutting out the name finds exactly the name `HasName` describes. */
  lemma NameAfterBulletSound(s: string, n: string)
    requires NameAfterBullet(FromBullet(s)) == Some(n)
    ensures HasName(s, n)
  {
    var st := FromBullet(s);
    var i := |s| - |st|;
    var a0 := SplitOnce(st, Space).value.0;
    var ac := SplitOnce(st, Space).value.1;
    var rest := SplitOnce(ac, Space).value.1;
    assert s[i..] == st;
    assert |a0| > 0 by { assert st[0] == Bullet; }
    NameAtOfParts(s, i, a0, ac, n, rest);
  }

  /** Every name `HasName` describes is the one cut out. */
  lemma NameAfterBulletComplete(s: string, n: string)
    requires HasName(s, n)
    ensures NameAfterBullet(FromBullet(s)) == Some(n)
  {
    var i, j :| IsNameAt(s, n, i, j);
    FindOrLenUnique(s, Bullet, i);
    PartsOfNameAt(s, n, i, j);
    SplitOnceUnique(s[i..], Space, s[i..j], s[j + 1..]);
    SplitOnceUnique(s[j + 1..], Space, n, s[j + 2 + |n|..]);
  }

  /** `ExtractName` finds exactly the name `HasName` describes, in both
      directions; the leading-whitespace trim plays no part in it. */
  lemma ExtractNameIff(s: string, n: string)
    ensures ExtractName(s) == Some(n) <==> HasName(s, n)
  {
    if ExtractName(s) == Some(n) {
      NameAfterBulletSound(s, n);
    }
    if HasName(s, n) {
      NameAfterBulletComplete(s, n);
    }
  }

  /** A line shaped like `systemctl`'s, `<anything without ●>● <unit> <rest>`,
      yields exactly `<unit>`. */
  lemma ExtractNameOfUnitLine(lead: string, unit: string, rest: string)
    requires Bullet !in lead && Space !in unit
    ensures ExtractName(lead + ([Bullet, Space] + unit + [Space] + rest)) == Some(unit)
  {
    var line := [Bullet, Space] + unit + [Space] + rest;
    var s := lead + line;
    var i := |lead|;
    AppendParts(s, lead, line);
    assert line == [Bullet] + [Space] + unit + [Space] + rest;
    NameAtOfParts(s, i, [Bullet], unit + [Space] + rest, unit, rest);
    ExtractNameIff(s, unit);
  }

  /** A bullet line with a single field after the bullet has no second
      space to end the name, so no name is parsed from it. */
  lemma ExtractNameOfBareUnit(unit: string)
    requires Space !in unit
    ensures ExtractName([Bullet, Space] + unit) == None
  {
    var line := [Bullet, Space] + unit;
    FindOrLenUnique(line, Bullet, 0);
    assert line == [Bullet] + [Space] + unit;
    SplitOnceUnique(line, Space, [Bullet], unit);
  }

  /** `add_failed`: count the line, keep it verbatim, and record its unit
      name when one can be parsed (a failed parse is only logged). */
  function AddFailed(u: FailedUnits, s: string): (r: FailedUnits)
    ensures r.number == u.number + 1
    ensures r.messages == u.messages + [s]
    ensures ExtractName(s).None? ==> r.names == u.names
    ensures ExtractName(s).Some? ==> r.names == u.names + [ExtractName(s).value]
    ensures Valid(u) ==> Valid(r)
  {
    var name := ExtractName(s);
    FailedUnits(u.number + 1, u.messages + [s], if name.Some? then u.names + [name.value] else u.names)
  }

  /** The record after `add_failed` has been called on each line in turn. */
  function AddAll(u: FailedUnits, lines: seq<string>): FailedUnits
    decreases |lines|
  {
    if lines == [] then u else AddAll(AddFailed(u, lines[0]), lines[1..])
  }

  /** From `new()`, any series of `add_failed` calls keeps `number` equal to
      the number of lines, the lines themselves as messages, and no more
      names than lines. */
  lemma {:induction false} AddAllFromNew(lines: seq<string>)
    ensures AddAll(New(), lines).number == |lines|
    ensures AddAll(New(), lines).messages == lines
    ensures Valid(AddAll(New(), lines))
  {
    AddAllKeeps(New(), lines);
  }

  lemma {:induction false} AddAllKeeps(u: FailedUnits, lines: seq<string>)
    requires Valid(u)
    ensures AddAll(u, lines).number == u.number + |lines|
    ensures AddAll(u, lines).messages == u.messages + lines
    ensures Valid(AddAll(u, lines))
    decreases |lines|
  {
    if lines != [] {
      AddAllKeeps(AddFailed(u, lines[0]), lines[1..]);
      AppendFirst(u.messages, lines);
    }
  }

  const NoneText: string := "No failed units"
  const Opening: string := "Failed Units: [ "
  const Closing: string := " ]"

  /** What follows each name when rendering: nothing for a single failed
      unit, a comma and a space otherwise. */
  function Separator(number: nat): string {
    if number == 1 then "" else ", "
  }

  /** `impl Display for FailedUnits`. The branch is chosen by `number`, not
      by how many names were parsed. */
  function Render(u: FailedUnits): (r: string)
    ensures r == NoneText <==> u.number == 0
    ensures u.number != 0 ==>
      && |r| == |Opening| + Offset(u.names, Separator(u.number), |u.names|) + |Closing|
      && r[..|Opening|] == Opening
      && r[|r| - |Closing|..] == Closing
  {
    if u.number == 0 then NoneText
    else
      var r := Opening + Suffixed(u.names, Separator(u.number)) + Closing;
      assert r[0] != NoneText[0];
      r
  }

  /** Every name appears in the rendering, in order, each followed by the
      separator (so with several units the last one is followed by ", " too). */
  lemma RenderLayout(u: FailedUnits, i: nat)
    requires u.number != 0 && i < |u.names|
    ensures var o := |Opening| + Offset(u.names, Separator(u.number), i);
      && o + |u.names[i]| + |Separator(u.number)| <= |Render(u)|
      && Render(u)[o..o + |u.names[i]| + |Separator(u.number)|] == u.names[i] + Separator(u.number)
  {
    var sep := Separator(u.number);
    var body := Suffixed(u.names, sep);
    var o := Offset(u.names, sep, i);
    SuffixedLayout(u.names, sep, i);
    var r := Render(u);
    assert r == Opening + (body + Closing);
    SliceOfFirst(body + Closing, body, Closing, o, o + |u.names[i]| + |sep|);
    SliceOfSecond(r, Opening, body + Closing, o, o + |u.names[i]| + |sep|);
  }

  /** A record of one added line renders as its name in brackets, or as
      empty brackets when no name could be parsed from the line. */
  lemma RenderOneUnit(u: FailedUnits)
    requires u.number == 1 && |u.names| <= 1
    ensures u.names == [] ==> Render(u) == Opening + Closing
    ensures u.names != [] ==> Render(u) == Opening + u.names[0] + Closing
  {
    assert Separator(u.number) == "";
    if u.names != [] {
      assert u.names[1..] == [];
      assert Suffixed(u.names, "") == u.names[0] + "" + Suffixed([], "");
    }
  }

  /** The loops of `fmt`: push each name, then `sep`, onto the buffer. */
  method PushNames(buffer: string, names: seq<string>, sep: string) returns (tmp: string)
    ensures tmp == buffer + Suffixed(names, sep)
  {
    tmp := buffer;
    for k := 0 to |names|
      invariant tmp == buffer + Suffixed(names[..k], sep)
    {
      SuffixedSnoc(names[..k], names[k], sep);
      TakeSnoc(names, k);
      tmp := tmp + names[k];
      tmp := tmp + sep;
    }
    TakeAll(names);
  }

  /** The rendering written as the source writes it, by pushes onto a
      buffer; the loop for a single unit pushes no separator. It builds
      exactly `Render(u)`. */
  method RenderLoop(u: FailedUnits) returns (tmp: string)
    ensures tmp == Render(u)
  {
    tmp := "";
    if u.number == 0 {
      tmp := tmp + NoneText;
    } else {
      tmp := tmp + Opening;
      tmp := PushNames(tmp, u.names, Separator(u.number));
      tmp := tmp + Closing;
    }
  }
}
