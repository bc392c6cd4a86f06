/** The dispatch of `getNextTarEntry` over records the header decoder has
    already classified: GNU long-link and long-name entries, global and
    local PAX extended headers, and the plain entry they lead to. Each kind
    of extension entry fetches the entry after it with a nested call, and
    the outer call then carries on with its remaining stages on the entry
    the nested call returned. */
module NextEntry {
  import opened Results

  /** PAX key/value pairs; a later assignment to a key replaces an earlier
      one. */
  type Headers = map<string, string>

  /** The PAX keys that override an entry's name and link name. */
  const PathKey := "path"
  const LinkPathKey := "linkpath"

  /** A header record, classified, with the data of a long-name or
      long-link entry and the block of a PAX header already decoded. */
  datatype Record =
    | EndOfArchive                       // an all-zero record, or no full record left
    | Plain(name: string, directory: bool)
    | LongLink(link: string)
    | LongName(longName: string)
    | GlobalPax(block: Headers)
    | LocalPax(block: Headers)

  /** An entry as the resolver hands it out. `headers` stands for the
      fields the PAX headers set on it, apart from the name and the link,
      which the `path` and `linkpath` keys set; `directory` is the type
      flag; `record` is the record it was parsed from. */
  datatype TarEntry = TarEntry(name: string, link: string, directory: bool, headers: Headers, record: Record)

  datatype DriverError =
    | PaxHeaderError   // IOException("Error detected parsing the pax header")
    | PrematureEnd     // IOException("premature end of tar archive. Didn't find any entry after PAX header.")

  /** The result of one resolution: the entry (`None` at the end of the
      archive), the position of the next record and the global headers. */
  datatype Step = Step(entry: Option<TarEntry>, pos: nat, globals: Headers)

  /** `new TarArchiveEntry(globalPaxHeaders, headerBuf, ...)`: an entry
      parsed from `rec` starts out with the global headers applied. */
  function Parse(rec: Record, globals: Headers): (e: TarEntry)
    ensures e.record == rec && e.headers == globals
  {
    match rec
    case Plain(name, directory) => TarEntry(name, "", directory, globals, rec)
    case _ => TarEntry("", "", false, globals, rec)
  }

  /** `applyPaxHeadersToCurrentEntry`: the block's values override the
      entry's. */
  function Apply(e: TarEntry, block: Headers): (e': TarEntry)
    ensures e'.directory == e.directory && e'.record == e.record
    ensures forall k :: k in block ==> k in e'.headers && e'.headers[k] == block[k]
    ensures forall k :: k in e.headers && k !in block ==> k in e'.headers && e'.headers[k] == e.headers[k]
    ensures PathKey in block ==> e'.name == block[PathKey]
    ensures PathKey !in block ==> e'.name == e.name
    ensures LinkPathKey in block ==> e'.link == block[LinkPathKey]
    ensures LinkPathKey !in block ==> e'.link == e.link
  {
    var name := if PathKey in block then block[PathKey] else e.name;
    var link := if LinkPathKey in block then block[LinkPathKey] else e.link;
    e.(name := name, link := link, headers := e.headers + block)
  }

  predicate EndsWithSlash(s: string)
  {
    |s| > 0 && s[|s| - 1] == '/'
  }

  /** The name a long name gives an entry: a directory's name ends with
      "/". */
  function LongNameFor(e: TarEntry, longName: string): (name: string)
    ensures e.directory && !EndsWithSlash(longName) ==> name == longName + "/"
    ensures !(e.directory && !EndsWithSlash(longName)) ==> name == longName
    ensures e.directory ==> EndsWithSlash(name)
  {
    if e.directory && !EndsWithSlash(longName) then longName + "/" else longName
  }

  /** Where a resolution that read records from `from` on may stop: at the
      end of the archive with no entry, or just past the plain record of
      the entry it hands out. */
  predicate Lands(rs: seq<Record>, from: nat, s: Step)
  {
    && from <= s.pos <= |rs|
    && (s.entry.None? ==> s.pos == |rs| || rs[s.pos].EndOfArchive?)
    && (s.entry.Some? ==> from < s.pos && rs[s.pos - 1].Plain? && s.entry.value.record == rs[s.pos - 1])
  }

  /** A PAX header of the given kind lies between `from` and the end. */
  predicate PaxAfter(rs: seq<Record>, from: nat, global: bool)
    decreases |rs| - from
  {
    && from < |rs|
    && ((if global then rs[from].GlobalPax? else rs[from].LocalPax?) || PaxAfter(rs, from + 1, global))
  }

  /** What can go wrong: a global PAX header with no entry after it, or a
      local one with no entry after it. */
  predicate ErrorCause(rs: seq<Record>, from: nat, e: DriverError)
  {
    match e
    case PaxHeaderError => PaxAfter(rs, from, true)
    case PrematureEnd => PaxAfter(rs, from, false)
  }

  /** The global headers a record leaves for the records after it: a
      global PAX header's block goes over them. */
  function After(rec: Record, globals: Headers): Headers
  {
    if rec.GlobalPax? then globals + rec.block else globals
  }

  /** The global headers after the records from `from` up to `to`. */
  function GlobalsAcross(rs: seq<Record>, from: nat, to: nat, globals: Headers): Headers
    requires from <= to <= |rs|
    decreases |rs| - from
  {
    if from == to then globals else GlobalsAcross(rs, from + 1, to, After(rs[from], globals))
  }

  /** A resolution that read records from `from` on, starting with the
      global headers `globals`, passed over extension entries only: it
      stopped at the first plain or end-of-archive record. The global
      headers it hands back are the ones the global PAX headers it passed
      over make, in order. */
  predicate Follows(rs: seq<Record>, from: nat, globals: Headers, s: Step)
    requires from <= s.pos <= |rs|
  {
    && (forall i :: from <= i < s.pos - (if s.entry.Some? then 1 else 0) ==> !rs[i].Plain? && !rs[i].EndOfArchive?)
    && s.globals == GlobalsAcross(rs, from, s.pos, globals)
  }

  // ---------------------------------------------------------------------
  // The stages of getNextTarEntry
  // ---------------------------------------------------------------------
  // `asWritten` selects the dispatch as the source has it; otherwise the
  // global headers are not applied again to an entry a nested call has
  // already resolved. `nested` says that `e` came back from a nested call.

  /** `getNextTarEntry` from record `pos`, the archive not yet at its end:
      `getRecord`, then the stages. */
  function Resolve(rs: seq<Record>, pos: nat, globals: Headers, asWritten: bool): (r: Result<Step, DriverError>)
    requires pos <= |rs|
    ensures r.Success? ==> Lands(rs, pos, r.value)
    decreases |rs| - pos, 5
  {
    if pos == |rs| || rs[pos].EndOfArchive? then Success(Step(None, pos, globals))
    else StageLongLink(rs, pos + 1, Parse(rs[pos], globals), globals, asWritten)
  }

  /** A long-link entry: its target goes to the entry after it; no entry
      after it ends the archive. */
  function StageLongLink(rs: seq<Record>, pos: nat, e: TarEntry, globals: Headers, asWritten: bool): (r: Result<Step, DriverError>)
    requires 0 < pos <= |rs| && e.record == rs[pos - 1] && !e.record.EndOfArchive?
    ensures r.Success? ==> Lands(rs, pos - 1, r.value)
    decreases |rs| - pos + 1, 4
  {
    if e.record.LongLink? then
      match Resolve(rs, pos, globals, asWritten)
      case Failure(err) => Failure(err)
      case Success(inner) =>
        if inner.entry.None? then Success(inner)
        else StageLongName(rs, inner.pos, inner.entry.value.(link := e.record.link), inner.globals, true, asWritten)
    else StageLongName(rs, pos, e, globals, false, asWritten)
  }

  /** A long-name entry: its name goes to the entry after it, with "/"
      added for a directory; no entry after it ends the archive. */
  function StageLongName(rs: seq<Record>, pos: nat, e: TarEntry, globals: Headers, nested: bool, asWritten: bool): (r: Result<Step, DriverError>)
    requires 0 < pos <= |rs| && e.record == rs[pos - 1] && !e.record.EndOfArchive? && !e.record.LongLink?
    ensures r.Success? ==> Lands(rs, pos - 1, r.value)
    decreases |rs| - pos + 1, 3
  {
    if e.record.LongName? then
      match Resolve(rs, pos, globals, asWritten)
      case Failure(err) => Failure(err)
      case Success(inner) =>
        if inner.entry.None? then Success(inner)
        else
          var named := inner.entry.value.(name := LongNameFor(inner.entry.value, e.record.longName));
          StageGlobalPax(rs, inner.pos, named, inner.globals, true, asWritten)
    else StageGlobalPax(rs, pos, e, globals, nested, asWritten)
  }

  /** A global PAX header: its block joins the global headers, and an entry
      must follow. */
  function StageGlobalPax(rs: seq<Record>, pos: nat, e: TarEntry, globals: Headers, nested: bool, asWritten: bool): (r: Result<Step, DriverError>)
    requires 0 < pos <= |rs| && e.record == rs[pos - 1] && (e.record.Plain? || e.record.GlobalPax? || e.record.LocalPax?)
    ensures r.Success? ==> Lands(rs, pos - 1, r.value)
    decreases |rs| - pos + 1, 2
  {
    if e.record.GlobalPax? then
      match Resolve(rs, pos, globals + e.record.block, asWritten)
      case Failure(err) => Failure(err)
      case Success(inner) =>
        if inner.entry.None? then Failure(PaxHeaderError)
        else StageLocalPax(rs, inner.pos, inner.entry.value, inner.globals, true, asWritten)
    else StageLocalPax(rs, pos, e, globals, nested, asWritten)
  }

  /** A local PAX header: its block, over the global headers, goes to the
      entry after it, which must exist. Any other entry gets the global
      headers applied, as written even when a nested call has already
      resolved it. */
  function StageLocalPax(rs: seq<Record>, pos: nat, e: TarEntry, globals: Headers, nested: bool, asWritten: bool): (r: Result<Step, DriverError>)
    requires 0 < pos <= |rs| && e.record == rs[pos - 1] && (e.record.Plain? || e.record.LocalPax?)
    ensures r.Success? ==> Lands(rs, pos - 1, r.value)
    decreases |rs| - pos + 1, 1
  {
    if e.record.LocalPax? then
      match Resolve(rs, pos, globals, asWritten)
      case Failure(err) => Failure(err)
      case Success(inner) =>
        if inner.entry.None? then Failure(PrematureEnd)
        else Success(Step(Some(Apply(inner.entry.value, globals + e.record.block)), inner.pos, inner.globals))
    else if |globals| > 0 && (asWritten || !nested) then
      Success(Step(Some(Apply(e, globals)), pos, globals))
    else
      Success(Step(Some(e), pos, globals))
  }

  /** The reader's position between calls. */
  datatype Cursor = Cursor(pos: nat, globals: Headers, atEof: bool)

  /** `getNextTarEntry` as the source has it. */
  function GetNextTarEntryAsWritten(rs: seq<Record>, c: Cursor): (r: Result<(Option<TarEntry>, Cursor), DriverError>)
    requires c.pos <= |rs|
    ensures c.atEof ==> r == Success((None, c))
    ensures r.Success? ==> c.pos <= r.value.1.pos <= |rs| && (r.value.0.None? <==> r.value.1.atEof)
    ensures r.Success? && r.value.0.None? && !c.atEof ==> r.value.1.pos == |rs| || rs[r.value.1.pos].EndOfArchive?
    ensures r.Success? && r.value.0.Some? ==>
      && c.pos < r.value.1.pos
      && rs[r.value.1.pos - 1].Plain? && r.value.0.value.record == rs[r.value.1.pos - 1]
    ensures r.Success? && !c.atEof ==> Follows(rs, c.pos, c.globals, Step(r.value.0, r.value.1.pos, r.value.1.globals))
    ensures r.Failure? ==> ErrorCause(rs, c.pos, r.error)
  {
    if c.atEof then Success((None, c))
    else
      ResolveFollows(rs, c.pos, c.globals, true);
      var s :- Resolve(rs, c.pos, c.globals, true);
      Success((s.entry, Cursor(s.pos, s.globals, s.entry.None?)))
  }

  /** `getNextTarEntry` with the global headers applied once. */
  function GetNextTarEntry(rs: seq<Record>, c: Cursor): (r: Result<(Option<TarEntry>, Cursor), DriverError>)
    requires c.pos <= |rs|
    ensures c.atEof ==> r == Success((None, c))
    ensures r.Success? ==> c.pos <= r.value.1.pos <= |rs| && (r.value.0.None? <==> r.value.1.atEof)
    ensures r.Success? && r.value.0.None? && !c.atEof ==> r.value.1.pos == |rs| || rs[r.value.1.pos].EndOfArchive?
    ensures r.Success? && r.value.0.Some? ==>
      && c.pos < r.value.1.pos
      && rs[r.value.1.pos - 1].Plain? && r.value.0.value.record == rs[r.value.1.pos - 1]
    ensures r.Success? && !c.atEof ==> Follows(rs, c.pos, c.globals, Step(r.value.0, r.value.1.pos, r.value.1.globals))
    ensures r.Failure? ==> ErrorCause(rs, c.pos, r.error)
  {
    if c.atEof then Success((None, c))
    else
      ResolveFollows(rs, c.pos, c.globals, false);
      var s :- Resolve(rs, c.pos, c.globals, false);
      Success((s.entry, Cursor(s.pos, s.globals, s.entry.None?)))
  }


  // ---------------------------------------------------------------------
  // A resolution stops at the first plain entry and keeps the account of
  // the global headers
  // ---------------------------------------------------------------------
  // One lemma per stage, following the stages' own recursion.

  /** Stepping back over an extension record keeps `Follows`, whatever
      entry is handed out from the same stop. */
  lemma {:induction false} FollowsPast(rs: seq<Record>, from: nat, globals: Headers, next: Headers, s: Step, entry: Option<TarEntry>)
    requires from < s.pos <= |rs| && !rs[from].Plain? && !rs[from].EndOfArchive? && next == After(rs[from], globals)
    requires Follows(rs, from + 1, next, s) && entry.Some? == s.entry.Some?
    ensures Follows(rs, from, globals, Step(entry, s.pos, s.globals))
  {
  }

  /** An error whose cause lies ahead of a record also lies ahead of the
      record before it. */
  lemma {:induction false} CauseBefore(rs: seq<Record>, from: nat, err: DriverError)
    requires from < |rs| && ErrorCause(rs, from + 1, err)
    ensures ErrorCause(rs, from, err)
  {
    match err
    case PaxHeaderError => assert PaxAfter(rs, from + 1, true);
    case PrematureEnd => assert PaxAfter(rs, from + 1, false);
  }

  /** A stage that carries on from the plain record a nested call stopped
      at stops there too, so it keeps the nested call's account. */
  lemma {:induction false} Chained(rs: seq<Record>, from: nat, globals: Headers, inner: Step, res: Result<Step, DriverError>)
    requires from < inner.pos <= |rs| && rs[inner.pos - 1].Plain? && inner.entry.Some?
    requires Follows(rs, from, globals, inner)
    requires res.Success? ==> Lands(rs, inner.pos - 1, res.value) && Follows(rs, inner.pos - 1, inner.globals, res.value)
    ensures res.Success? ==> res.value.pos == inner.pos && Follows(rs, from, globals, res.value)
  {
    if res.Success? {
      assert rs[inner.pos - 1].Plain?;
      assert res.value.pos == inner.pos;
      assert GlobalsAcross(rs, inner.pos - 1, inner.pos, inner.globals) == inner.globals;
    }
  }

  lemma {:induction false} ResolveFollows(rs: seq<Record>, pos: nat, globals: Headers, asWritten: bool)
    requires pos <= |rs|
    ensures var r := Resolve(rs, pos, globals, asWritten);
      && (r.Success? ==> Follows(rs, pos, globals, r.value))
      && (r.Failure? ==> ErrorCause(rs, pos, r.error))
    decreases |rs| - pos, 5
  {
    if !(pos == |rs| || rs[pos].EndOfArchive?) {
      LongLinkFollows(rs, pos + 1, Parse(rs[pos], globals), globals, asWritten);
    }
  }

  lemma {:induction false} LongLinkFollows(rs: seq<Record>, pos: nat, e: TarEntry, globals: Headers, asWritten: bool)
    requires 0 < pos <= |rs| && e.record == rs[pos - 1] && !e.record.EndOfArchive?
    ensures var r := StageLongLink(rs, pos, e, globals, asWritten);
      && (r.Success? ==> Follows(rs, pos - 1, globals, r.value))
      && (r.Failure? ==> ErrorCause(rs, pos - 1, r.error))
    decreases |rs| - pos + 1, 4
  {
    if e.record.LongLink? {
      ResolveFollows(rs, pos, globals, asWritten);
      var res := Resolve(rs, pos, globals, asWritten);
      if res.Failure? {
        CauseBefore(rs, pos - 1, res.error);
      } else {
        var inner := res.value;
        if inner.entry.None? {
          FollowsPast(rs, pos - 1, globals, globals, inner, None);
        } else {
          var linked := inner.entry.value.(link := e.record.link);
          assert StageLongLink(rs, pos, e, globals, asWritten)
              == StageLongName(rs, inner.pos, linked, inner.globals, true, asWritten);
          LongLinkOnward(rs, pos, globals, inner, asWritten);
        }
      }
    } else {
      LongNameFollows(rs, pos, e, globals, false, asWritten);
    }
  }

  /** The entry after a long-link entry goes on to the long-name stage,
      which keeps the account from the long-link entry on. */
  lemma {:induction false} LongLinkOnward(rs: seq<Record>, pos: nat, globals: Headers, inner: Step, asWritten: bool)
    requires 0 < pos <= |rs| && rs[pos - 1].LongLink?
    requires Lands(rs, pos, inner) && inner.entry.Some? && Follows(rs, pos, globals, inner)
    ensures var linked := inner.entry.value.(link := rs[pos - 1].link);
      var r := StageLongName(rs, inner.pos, linked, inner.globals, true, asWritten);
      r.Success? && Follows(rs, pos - 1, globals, r.value)
    decreases |rs| - pos + 1, 3
  {
    var linked := inner.entry.value.(link := rs[pos - 1].link);
    FollowsPast(rs, pos - 1, globals, globals, inner, inner.entry);
    LongNameFollows(rs, inner.pos, linked, inner.globals, true, asWritten);
    Chained(rs, pos - 1, globals, inner, StageLongName(rs, inner.pos, linked, inner.globals, true, asWritten));
  }

  /** The entry after a long-name entry goes on to the global PAX stage,
      which keeps the account from the long-name entry on. */
  lemma {:induction false} LongNameOnward(rs: seq<Record>, pos: nat, globals: Headers, inner: Step, asWritten: bool)
    requires 0 < pos <= |rs| && rs[pos - 1].LongName?
    requires Lands(rs, pos, inner) && inner.entry.Some? && Follows(rs, pos, globals, inner)
    ensures var named := inner.entry.value.(name := LongNameFor(inner.entry.value, rs[pos - 1].longName));
      var r := StageGlobalPax(rs, inner.pos, named, inner.globals, true, asWritten);
      r.Success? && Follows(rs, pos - 1, globals, r.value)
    decreases |rs| - pos + 1, 2
  {
    var named := inner.entry.value.(name := LongNameFor(inner.entry.value, rs[pos - 1].longName));
    FollowsPast(rs, pos - 1, globals, globals, inner, inner.entry);
    GlobalPaxFollows(rs, inner.pos, named, inner.globals, true, asWritten);
    Chained(rs, pos - 1, globals, inner, StageGlobalPax(rs, inner.pos, named, inner.globals, true, asWritten));
  }

  lemma {:induction false} LongNameFollows(rs: seq<Record>, pos: nat, e: TarEntry, globals: Headers, nested: bool, asWritten: bool)
    requires 0 < pos <= |rs| && e.record == rs[pos - 1] && !e.record.EndOfArchive? && !e.record.LongLink?
    ensures var r := StageLongName(rs, pos, e, globals, nested, asWritten);
      && (r.Success? ==> Follows(rs, pos - 1, globals, r.value))
      && (r.Failure? ==> ErrorCause(rs, pos - 1, r.error))
      && (e.record.Plain? ==> r.Success?)
    decreases |rs| - pos + 1, 3
  {
    if e.record.LongName? {
      ResolveFollows(rs, pos, globals, asWritten);
      var res := Resolve(rs, pos, globals, asWritten);
      if res.Failure? {
        CauseBefore(rs, pos - 1, res.error);
      } else {
        var inner := res.value;
        if inner.entry.None? {
          FollowsPast(rs, pos - 1, globals, globals, inner, None);
        } else {
          var named := inner.entry.value.(name := LongNameFor(inner.entry.value, e.record.longName));
          assert StageLongName(rs, pos, e, globals, nested, asWritten)
              == StageGlobalPax(rs, inner.pos, named, inner.globals, true, asWritten);
          LongNameOnward(rs, pos, globals, inner, asWritten);
        }
      }
    } else {
      GlobalPaxFollows(rs, pos, e, globals, nested, asWritten);
    }
  }

  lemma {:induction false} GlobalPaxFollows(rs: seq<Record>, pos: nat, e: TarEntry, globals: Headers, nested: bool, asWritten: bool)
    requires 0 < pos <= |rs| && e.record == rs[pos - 1] && (e.record.Plain? || e.record.GlobalPax? || e.record.LocalPax?)
    ensures var r := StageGlobalPax(rs, pos, e, globals, nested, asWritten);
      && (r.Success? ==> Follows(rs, pos - 1, globals, r.value))
      && (r.Failure? ==> ErrorCause(rs, pos - 1, r.error))
      && (e.record.Plain? ==> r.Success?)
    decreases |rs| - pos + 1, 2
  {
    if e.record.GlobalPax? {
      var globals' := globals + e.record.block;
      ResolveFollows(rs, pos, globals', asWritten);
      var res := Resolve(rs, pos, globals', asWritten);
      if res.Failure? {
        CauseBefore(rs, pos - 1, res.error);
      } else if res.value.entry.None? {
        assert PaxAfter(rs, pos - 1, true);
      } else {
        var inner := res.value;
        assert StageGlobalPax(rs, pos, e, globals, nested, asWritten)
            == StageLocalPax(rs, inner.pos, inner.entry.value, inner.globals, true, asWritten);
        GlobalPaxOnward(rs, pos, globals, globals', inner, asWritten);
      }
    } else {
      LocalPaxFollows(rs, pos, e, globals, nested, asWritten);
    }
  }

  /** The entry after a global PAX header goes on to the local PAX stage,
      which keeps the account from the global header on. */
  lemma {:induction false} GlobalPaxOnward(rs: seq<Record>, pos: nat, globals: Headers, globals': Headers, inner: Step, asWritten: bool)
    requires 0 < pos <= |rs| && rs[pos - 1].GlobalPax? && globals' == globals + rs[pos - 1].block
    requires Lands(rs, pos, inner) && inner.entry.Some? && Follows(rs, pos, globals', inner)
    ensures var r := StageLocalPax(rs, inner.pos, inner.entry.value, inner.globals, true, asWritten);
      r.Success? && Follows(rs, pos - 1, globals, r.value)
    decreases |rs| - pos + 1, 1
  {
    FollowsPast(rs, pos - 1, globals, globals', inner, inner.entry);
    LocalPaxFollows(rs, inner.pos, inner.entry.value, inner.globals, true, asWritten);
    Chained(rs, pos - 1, globals, inner, StageLocalPax(rs, inner.pos, inner.entry.value, inner.globals, true, asWritten));
  }

  lemma {:induction false} LocalPaxFollows(rs: seq<Record>, pos: nat, e: TarEntry, globals: Headers, nested: bool, asWritten: bool)
    requires 0 < pos <= |rs| && e.record == rs[pos - 1] && (e.record.Plain? || e.record.LocalPax?)
    ensures var r := StageLocalPax(rs, pos, e, globals, nested, asWritten);
      && (r.Success? ==> Follows(rs, pos - 1, globals, r.value))
      && (r.Failure? ==> ErrorCause(rs, pos - 1, r.error))
      && (e.record.Plain? ==> r.Success?)
    decreases |rs| - pos + 1, 1
  {
    if e.record.LocalPax? {
      ResolveFollows(rs, pos, globals, asWritten);
      var res := Resolve(rs, pos, globals, asWritten);
      if res.Failure? {
        CauseBefore(rs, pos - 1, res.error);
      } else if res.value.entry.None? {
        assert PaxAfter(rs, pos - 1, false);
      } else {
        var inner := res.value;
        var headers := globals + e.record.block;
        FollowsPast(rs, pos - 1, globals, globals, inner, Some(Apply(inner.entry.value, headers)));
      }
    } else {
      assert GlobalsAcross(rs, pos - 1, pos, globals) == GlobalsAcross(rs, pos, pos, globals);
    }
  }

  // ---------------------------------------------------------------------
  // What the resolution promises
  // ---------------------------------------------------------------------

  /** From `pos`: `n` global PAX headers, a local PAX header carrying
      `block`, and a plain entry. */
  predicate GlobalsThenLocalAt(rs: seq<Record>, pos: nat, n: nat, block: Headers)
  {
    && pos + n + 2 <= |rs|
    && (forall i :: pos <= i < pos + n ==> rs[i].GlobalPax?)
    && rs[pos + n] == LocalPax(block)
    && rs[pos + n + 1].Plain?
  }

  /** A plain entry resolves to itself with the global headers applied,
      in both variants. */
  lemma {:induction false} PlainResolves(rs: seq<Record>, pos: nat, globals: Headers, asWritten: bool)
    requires pos < |rs| && rs[pos].Plain?
    ensures var e := Parse(rs[pos], globals);
      Resolve(rs, pos, globals, asWritten)
        == Success(Step(Some(if |globals| > 0 then Apply(e, globals) else e), pos + 1, globals))
  {
    var e := Parse(rs[pos], globals);
    assert Resolve(rs, pos, globals, asWritten) == StageLongLink(rs, pos + 1, e, globals, asWritten);
    assert StageLongLink(rs, pos + 1, e, globals, asWritten) == StageLongName(rs, pos + 1, e, globals, false, asWritten);
    assert StageLongName(rs, pos + 1, e, globals, false, asWritten) == StageGlobalPax(rs, pos + 1, e, globals, false, asWritten);
    assert StageGlobalPax(rs, pos + 1, e, globals, false, asWritten) == StageLocalPax(rs, pos + 1, e, globals, false, asWritten);
  }

  /** An empty block changes nothing. */
  lemma {:induction false} ApplyNothing(e: TarEntry)
    ensures Apply(e, map[]) == e
  {
    assert e.headers + map[] == e.headers;
  }

  /** Applying `globals` and then a block over `globals` is applying the
      block over `globals` once. */
  lemma {:induction false} ApplyOver(e: TarEntry, globals: Headers, block: Headers)
    ensures Apply(Apply(e, globals), globals + block) == Apply(e, globals + block)
  {
    assert e.headers + globals + (globals + block) == e.headers + (globals + block);
  }

  /** A global PAX header goes straight to its stage. */
  lemma {:induction false} GlobalPaxResolves(rs: seq<Record>, pos: nat, globals: Headers, asWritten: bool)
    requires pos < |rs| && rs[pos].GlobalPax?
    ensures Resolve(rs, pos, globals, asWritten)
      == StageGlobalPax(rs, pos + 1, Parse(rs[pos], globals), globals, false, asWritten)
  {
    var x := Parse(rs[pos], globals);
    assert Resolve(rs, pos, globals, asWritten) == StageLongLink(rs, pos + 1, x, globals, asWritten);
    assert StageLongLink(rs, pos + 1, x, globals, asWritten) == StageLongName(rs, pos + 1, x, globals, false, asWritten);
  }

  /** A global PAX header followed by a plain entry resolves to that entry
      with the new global headers applied once, and hands them on. */
  lemma {:induction false} GlobalThenPlain(rs: seq<Record>, pos: nat, globals: Headers, asWritten: bool)
    requires pos + 2 <= |rs| && rs[pos].GlobalPax? && rs[pos + 1].Plain?
    ensures var g := globals + rs[pos].block;
      Resolve(rs, pos, globals, asWritten) == Success(Step(Some(Apply(Parse(rs[pos + 1], g), g)), pos + 2, g))
  {
    var g := globals + rs[pos].block;
    var e := Parse(rs[pos + 1], g);
    GlobalPaxResolves(rs, pos, globals, asWritten);
    PlainResolves(rs, pos + 1, g, asWritten);
    ApplyNothing(e);
    ApplyOver(e, g, map[]);
    assert g + map[] == g;
    var done := if |g| > 0 then Apply(e, g) else e;
    assert StageGlobalPax(rs, pos + 1, Parse(rs[pos], globals), globals, false, asWritten)
        == StageLocalPax(rs, pos + 2, done, g, true, asWritten);
  }

  /** A global PAX header reaches past the entry right after it: with a
      global header and then two plain entries, both entries carry the
      header's values over the earlier global ones, in both variants. */
  lemma {:induction false} GlobalReachesLaterEntry(rs: seq<Record>, c: Cursor)
    requires !c.atEof && c.pos + 3 <= |rs| && rs[c.pos].GlobalPax? && rs[c.pos + 1].Plain? && rs[c.pos + 2].Plain?
    ensures var g := c.globals + rs[c.pos].block;
      && GetNextTarEntry(rs, c) == Success((Some(Apply(Parse(rs[c.pos + 1], g), g)), Cursor(c.pos + 2, g, false)))
      && GetNextTarEntry(rs, Cursor(c.pos + 2, g, false)) == Success((Some(Apply(Parse(rs[c.pos + 2], g), g)), Cursor(c.pos + 3, g, false)))
    ensures var g := c.globals + rs[c.pos].block;
      && GetNextTarEntryAsWritten(rs, c) == Success((Some(Apply(Parse(rs[c.pos + 1], g), g)), Cursor(c.pos + 2, g, false)))
      && GetNextTarEntryAsWritten(rs, Cursor(c.pos + 2, g, false)) == Success((Some(Apply(Parse(rs[c.pos + 2], g), g)), Cursor(c.pos + 3, g, false)))
  {
    var g := c.globals + rs[c.pos].block;
    var e := Parse(rs[c.pos + 2], g);
    ApplyNothing(e);
    GlobalThenPlain(rs, c.pos, c.globals, false);
    GlobalThenPlain(rs, c.pos, c.globals, true);
    PlainResolves(rs, c.pos + 2, g, false);
    PlainResolves(rs, c.pos + 2, g, true);
  }

  /** A local PAX header followed by a plain entry resolves to that entry
      with the block applied over the global headers. */
  lemma {:induction false} LocalThenPlain(rs: seq<Record>, pos: nat, globals: Headers, asWritten: bool)
    requires pos + 2 <= |rs| && rs[pos].LocalPax? && rs[pos + 1].Plain?
    ensures var e := Parse(rs[pos + 1], globals);
      var done := if |globals| > 0 then Apply(e, globals) else e;
      Resolve(rs, pos, globals, asWritten)
        == Success(Step(Some(Apply(done, globals + rs[pos].block)), pos + 2, globals))
  {
    var x := Parse(rs[pos], globals);
    assert Resolve(rs, pos, globals, asWritten) == StageLongLink(rs, pos + 1, x, globals, asWritten);
    assert StageLongLink(rs, pos + 1, x, globals, asWritten) == StageLongName(rs, pos + 1, x, globals, false, asWritten);
    assert StageLongName(rs, pos + 1, x, globals, false, asWritten) == StageGlobalPax(rs, pos + 1, x, globals, false, asWritten);
    assert StageGlobalPax(rs, pos + 1, x, globals, false, asWritten) == StageLocalPax(rs, pos + 1, x, globals, false, asWritten);
    PlainResolves(rs, pos + 1, globals, asWritten);
  }

  /** With the fix, a local PAX header takes precedence over every global
      one before it: the entry it describes carries its values. */
  lemma {:induction false} LocalPaxWins(rs: seq<Record>, pos: nat, n: nat, globals: Headers, block: Headers)
    requires GlobalsThenLocalAt(rs, pos, n, block)
    ensures var r := Resolve(rs, pos, globals, false);
      && r.Success? && r.value.entry.Some?
      && r.value.entry.value.record == rs[pos + n + 1]
      && forall k :: k in block ==> k in r.value.entry.value.headers && r.value.entry.value.headers[k] == block[k]
    decreases n
  {
    if n == 0 {
      LocalThenPlain(rs, pos, globals, false);
    } else {
      var x := Parse(rs[pos], globals);
      assert Resolve(rs, pos, globals, false) == StageLongLink(rs, pos + 1, x, globals, false);
      assert StageLongLink(rs, pos + 1, x, globals, false) == StageLongName(rs, pos + 1, x, globals, false, false);
      assert StageLongName(rs, pos + 1, x, globals, false, false) == StageGlobalPax(rs, pos + 1, x, globals, false, false);
      var globals' := globals + rs[pos].block;
      assert GlobalsThenLocalAt(rs, pos + 1, n - 1, block);
      LocalPaxWins(rs, pos + 1, n - 1, globals', block);
      var inner := Resolve(rs, pos + 1, globals', false).value;
      assert StageGlobalPax(rs, pos + 1, x, globals, false, false)
          == StageLocalPax(rs, inner.pos, inner.entry.value, inner.globals, true, false);
    }
  }

  /** As written, a global PAX header in front of a local one undoes the
      local value: the global value is applied again after it. */
  lemma {:induction false} GlobalOverridesLocalAsWritten()
    ensures var rs := [GlobalPax(map["mtime" := "1"]), LocalPax(map["mtime" := "2"]), Plain("f", false)];
      var r := GetNextTarEntryAsWritten(rs, Cursor(0, map[], false));
      && r.Success? && r.value.0.Some?
      && "mtime" in r.value.0.value.headers && r.value.0.value.headers["mtime"] == "1"
  {
    var rs := [GlobalPax(map["mtime" := "1"]), LocalPax(map["mtime" := "2"]), Plain("f", false)];
    var none: Headers := map[];
    var g: Headers := map["mtime" := "1"];
    assert none + rs[0].block == g;
    GlobalLocalPlain(rs, 0, none, true);
    assert |g| > 0;
  }

  /** A global PAX header, a local one and a plain entry resolve to the
      plain entry with the local block applied over the new global
      headers and, as written, the global headers applied once more on
      top. */
  lemma {:induction false} GlobalLocalPlain(rs: seq<Record>, pos: nat, globals: Headers, asWritten: bool)
    requires pos + 3 <= |rs| && rs[pos].GlobalPax? && rs[pos + 1].LocalPax? && rs[pos + 2].Plain?
    ensures var g := globals + rs[pos].block;
      var local := Apply(Parse(rs[pos + 2], g), g + rs[pos + 1].block);
      Resolve(rs, pos, globals, asWritten)
        == Success(Step(Some(if asWritten && |g| > 0 then Apply(local, g) else local), pos + 3, g))
  {
    var g := globals + rs[pos].block;
    var e := Parse(rs[pos + 2], g);
    ApplyNothing(e);
    ApplyOver(e, g, rs[pos + 1].block);
    GlobalPaxResolves(rs, pos, globals, asWritten);
    LocalThenPlain(rs, pos + 1, g, asWritten);
    var local := Apply(e, g + rs[pos + 1].block);
    assert StageGlobalPax(rs, pos + 1, Parse(rs[pos], globals), globals, false, asWritten)
        == StageLocalPax(rs, pos + 3, local, g, true, asWritten);
  }

  /** The corrected `getNextTarEntry`: an entry behind a local PAX header,
      itself behind any number of global ones, carries the local values. */
  lemma {:induction false} LocalPaxTakesPrecedence(rs: seq<Record>, c: Cursor, n: nat, block: Headers)
    requires c.pos <= |rs| && !c.atEof && GlobalsThenLocalAt(rs, c.pos, n, block)
    ensures var r := GetNextTarEntry(rs, c);
      && r.Success? && r.value.0.Some? && r.value.0.value.record == rs[c.pos + n + 1]
      && forall k :: k in block ==> k in r.value.0.value.headers && r.value.0.value.headers[k] == block[k]
  {
    LocalPaxWins(rs, c.pos, n, c.globals, block);
  }

  /** A long-name entry in front of records that resolve to an entry: the
      entry gets the long name, and then, as written, the global headers
      once more. */
  lemma {:induction false} LongNameStep(rs: seq<Record>, pos: nat, globals: Headers, asWritten: bool, inner: Step)
    requires pos < |rs| && rs[pos].LongName?
    requires Resolve(rs, pos + 1, globals, asWritten) == Success(inner) && inner.entry.Some?
    requires inner.entry.value.record.Plain?
    ensures var named := inner.entry.value.(name := LongNameFor(inner.entry.value, rs[pos].longName));
      Resolve(rs, pos, globals, asWritten)
        == Success(Step(Some(if asWritten && |inner.globals| > 0 then Apply(named, inner.globals) else named), inner.pos, inner.globals))
  {
    var x := Parse(rs[pos], globals);
    var named := inner.entry.value.(name := LongNameFor(inner.entry.value, rs[pos].longName));
    assert Resolve(rs, pos, globals, asWritten) == StageLongLink(rs, pos + 1, x, globals, asWritten);
    assert StageLongLink(rs, pos + 1, x, globals, asWritten) == StageLongName(rs, pos + 1, x, globals, false, asWritten);
    assert StageLongName(rs, pos + 1, x, globals, false, asWritten) == StageGlobalPax(rs, inner.pos, named, inner.globals, true, asWritten);
    assert StageGlobalPax(rs, inner.pos, named, inner.globals, true, asWritten) == StageLocalPax(rs, inner.pos, named, inner.globals, true, asWritten);
  }

  /** A long-name entry followed by a plain one resolves to the plain
      entry under the long name, two records on. As written, the global
      headers go over it once more after the long name is set, so a global
      `path` takes its place. */
  lemma {:induction false} LongNameThenPlain(rs: seq<Record>, pos: nat, globals: Headers, asWritten: bool)
    requires pos + 2 <= |rs| && rs[pos].LongName? && rs[pos + 1].Plain?
    ensures var r := Resolve(rs, pos, globals, asWritten);
      && r.Success? && r.value.entry.Some? && r.value.pos == pos + 2 && r.value.globals == globals
      && r.value.entry.value.record == rs[pos + 1]
      && r.value.entry.value.name
           == if asWritten && PathKey in globals then globals[PathKey]
              else LongNameFor(Parse(rs[pos + 1], globals), rs[pos].longName)
  {
    PlainResolves(rs, pos + 1, globals, asWritten);
    var inner := Resolve(rs, pos + 1, globals, asWritten).value;
    LongNameStep(rs, pos, globals, asWritten, inner);
    var named := inner.entry.value.(name := LongNameFor(inner.entry.value, rs[pos].longName));
    assert named.name == LongNameFor(Parse(rs[pos + 1], globals), rs[pos].longName);
    if asWritten && |globals| > 0 {
      assert Apply(named, globals).name == if PathKey in globals then globals[PathKey] else named.name;
    } else {
      assert PathKey !in globals || !asWritten;
    }
  }

  /** A long name for a directory entry gives a name ending in "/", unless,
      as written, a global `path` replaces it. */
  lemma {:induction false} LongNameMarksDirectory(rs: seq<Record>, pos: nat, globals: Headers, asWritten: bool)
    requires pos + 2 <= |rs| && rs[pos].LongName? && rs[pos + 1].Plain? && rs[pos + 1].directory
    ensures var r := Resolve(rs, pos, globals, asWritten);
      && r.Success? && r.value.entry.Some?
      && r.value.entry.value.name
           == if asWritten && PathKey in globals then globals[PathKey]
              else if EndsWithSlash(rs[pos].longName) then rs[pos].longName else rs[pos].longName + "/"
  {
    LongNameThenPlain(rs, pos, globals, asWritten);
  }

  /** A long-link entry, then a long-name entry, then a plain one: the
      plain entry comes out with both the long link and the long name.
      As written, a global `linkpath` or `path` replaces them. */
  lemma {:induction false} LinkAndNameBothApply(rs: seq<Record>, pos: nat, globals: Headers, asWritten: bool)
    requires pos + 3 <= |rs| && rs[pos].LongLink? && rs[pos + 1].LongName? && rs[pos + 2].Plain?
    ensures var r := Resolve(rs, pos, globals, asWritten);
      && r.Success? && r.value.entry.Some? && r.value.pos == pos + 3
      && r.value.entry.value.record == rs[pos + 2]
      && r.value.entry.value.link
           == (if asWritten && LinkPathKey in globals then globals[LinkPathKey] else rs[pos].link)
      && r.value.entry.value.name
           == if asWritten && PathKey in globals then globals[PathKey]
              else if rs[pos + 2].directory && !EndsWithSlash(rs[pos + 1].longName)
              then rs[pos + 1].longName + "/" else rs[pos + 1].longName
  {
    var x := Parse(rs[pos], globals);
    assert Resolve(rs, pos, globals, asWritten) == StageLongLink(rs, pos + 1, x, globals, asWritten);
    LongNameThenPlain(rs, pos + 1, globals, asWritten);
    var inner := Resolve(rs, pos + 1, globals, asWritten).value;
    var linked := inner.entry.value.(link := x.record.link);
    assert StageLongLink(rs, pos + 1, x, globals, asWritten) == StageLongName(rs, pos + 3, linked, globals, true, asWritten);
    assert StageLongName(rs, pos + 3, linked, globals, true, asWritten) == StageGlobalPax(rs, pos + 3, linked, globals, true, asWritten);
    assert StageGlobalPax(rs, pos + 3, linked, globals, true, asWritten) == StageLocalPax(rs, pos + 3, linked, globals, true, asWritten);
    if asWritten && |globals| > 0 {
      assert StageLocalPax(rs, pos + 3, linked, globals, true, asWritten) == Success(Step(Some(Apply(linked, globals)), pos + 3, globals));
    } else {
      assert StageLocalPax(rs, pos + 3, linked, globals, true, asWritten) == Success(Step(Some(linked), pos + 3, globals));
    }
  }

  /** A local PAX header in front of a long-name entry goes over the entry
      the long name resolved to: its `path` wins, in both variants. */
  lemma {:induction false} LocalPathOverridesLongName(rs: seq<Record>, pos: nat, globals: Headers, asWritten: bool)
    requires pos + 3 <= |rs| && rs[pos].LocalPax? && PathKey in rs[pos].block
    requires rs[pos + 1].LongName? && rs[pos + 2].Plain?
    ensures var r := Resolve(rs, pos, globals, asWritten);
      && r.Success? && r.value.entry.Some? && r.value.pos == pos + 3
      && r.value.entry.value.record == rs[pos + 2]
      && r.value.entry.value.name == rs[pos].block[PathKey]
  {
    var x := Parse(rs[pos], globals);
    assert Resolve(rs, pos, globals, asWritten) == StageLongLink(rs, pos + 1, x, globals, asWritten);
    assert StageLongLink(rs, pos + 1, x, globals, asWritten) == StageLongName(rs, pos + 1, x, globals, false, asWritten);
    assert StageLongName(rs, pos + 1, x, globals, false, asWritten) == StageGlobalPax(rs, pos + 1, x, globals, false, asWritten);
    assert StageGlobalPax(rs, pos + 1, x, globals, false, asWritten) == StageLocalPax(rs, pos + 1, x, globals, false, asWritten);
    LongNameThenPlain(rs, pos + 1, globals, asWritten);
    var inner := Resolve(rs, pos + 1, globals, asWritten).value;
    assert (globals + rs[pos].block)[PathKey] == rs[pos].block[PathKey];
    assert StageLocalPax(rs, pos + 1, x, globals, false, asWritten)
        == Success(Step(Some(Apply(inner.entry.value, globals + rs[pos].block)), pos + 3, globals));
  }

  /** A long-name entry in front of a local PAX header goes over the entry
      the PAX header resolved to: the long name wins over the local `path`,
      unless, as written, a global `path` replaces both. */
  lemma {:induction false} LongNameOverridesLocalPath(rs: seq<Record>, pos: nat, globals: Headers, asWritten: bool)
    requires pos + 3 <= |rs| && rs[pos].LongName? && rs[pos + 1].LocalPax? && rs[pos + 2].Plain?
    ensures var r := Resolve(rs, pos, globals, asWritten);
      && r.Success? && r.value.entry.Some? && r.value.pos == pos + 3
      && r.value.entry.value.record == rs[pos + 2]
      && r.value.entry.value.name
           == if asWritten && PathKey in globals then globals[PathKey]
              else LongNameFor(Parse(rs[pos + 2], globals), rs[pos].longName)
  {
    var e := Parse(rs[pos + 2], globals);
    LocalThenPlain(rs, pos + 1, globals, asWritten);
    ApplyNothing(e);
    ApplyOver(e, globals, rs[pos + 1].block);
    var inner := Resolve(rs, pos + 1, globals, asWritten).value;
    assert inner.entry.value == Apply(e, globals + rs[pos + 1].block);
    LongNameStep(rs, pos, globals, asWritten, inner);
    var named := inner.entry.value.(name := LongNameFor(inner.entry.value, rs[pos].longName));
    assert inner.entry.value.directory == rs[pos + 2].directory;
    assert named.name == LongNameFor(Parse(rs[pos + 2], globals), rs[pos].longName);
    if asWritten && |globals| > 0 {
      assert Apply(named, globals).name == if PathKey in globals then globals[PathKey] else named.name;
    } else {
      assert PathKey !in globals || !asWritten;
    }
  }

  /** The end of the archive ends every chain of long-name and long-link
      entries in front of it, without error. */
  lemma {:induction false} LongEntriesBeforeEnd(rs: seq<Record>, pos: nat, globals: Headers, asWritten: bool)
    requires pos < |rs| && rs[|rs| - 1] == EndOfArchive
    requires forall i :: pos <= i < |rs| - 1 ==> rs[i].LongName? || rs[i].LongLink?
    ensures var r := Resolve(rs, pos, globals, asWritten);
      r.Success? && r.value.entry.None?
    decreases |rs| - pos
  {
    if pos < |rs| - 1 {
      LongEntriesBeforeEnd(rs, pos + 1, globals, asWritten);
      var x := Parse(rs[pos], globals);
      assert Resolve(rs, pos, globals, asWritten) == StageLongLink(rs, pos + 1, x, globals, asWritten);
      if !rs[pos].LongLink? {
        assert StageLongLink(rs, pos + 1, x, globals, asWritten) == StageLongName(rs, pos + 1, x, globals, false, asWritten);
      }
    }
  }
}
