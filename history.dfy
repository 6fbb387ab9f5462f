/** The read path over the message log: `loadHistory` (one page of a room's messages,
    ordered by timestamp) and the page/limit clamping of `historyHandler`. */
module History {
  import opened Base
  import opened Text
  import opened Messages

  function Min(a: int, b: int): int {
    if a <= b then a else b
  }

  /** `WHERE room = ?`: the room's rows, in log order. */
  function RoomRows(rows: seq<Message>, room: string): seq<Message> {
    if rows == [] then []
    else (if rows[0].room == room then [rows[0]] else []) + RoomRows(rows[1..], room)
  }

  /** The query selects exactly the room's rows. */
  lemma {:induction false} RoomRowsSelects(rows: seq<Message>, room: string)
    ensures var r := RoomRows(rows, room);
      && |r| <= |rows|
      && (forall i :: 0 <= i < |r| ==> r[i].room == room)
      && (forall m :: m in r <==> m in rows && m.room == room)
  {
    if rows != [] {
      RoomRowsSelects(rows[1..], room);
      assert rows == [rows[0]] + rows[1..];
    }
  }

  lemma {:induction false} RoomRowsKeepIdOrder(rows: seq<Message>, room: string)
    requires IdsIncreasing(rows)
    ensures IdsIncreasing(RoomRows(rows, room))
  {
    if rows != [] {
      RoomRowsKeepIdOrder(rows[1..], room);
      RoomRowsSelects(rows[1..], room);
      var rest := RoomRows(rows[1..], room);
      forall m | m in rest ensures rows[0].id < m.id {
        var j :| 0 <= j < |rows[1..]| && rows[1..][j] == m;
        assert rows[j + 1] == m;
      }
      if rows[0].room == room {
        IdsIncreasingCons(rows[0], rest);
      }
    }
  }

  lemma IdsIncreasingCons(x: Message, rest: seq<Message>)
    requires IdsIncreasing(rest) && forall m :: m in rest ==> x.id < m.id
    ensures IdsIncreasing([x] + rest)
  {
    var s := [x] + rest;
    forall i, j | 0 <= i < j < |s| ensures s[i].id < s[j].id {
      if i > 0 {
        assert s[i] == rest[i - 1] && s[j] == rest[j - 1];
      } else {
        assert s[j] in rest;
      }
    }
  }

  ghost predicate SortedByTs(ms: seq<Message>) {
    forall i, j :: 0 <= i < j < |ms| ==> ms[i].ts <= ms[j].ts
  }

  ghost predicate TsAtLeast(ms: seq<Message>, t: int) {
    forall k :: 0 <= k < |ms| ==> ms[k].ts >= t
  }

  /** A lower bound on timestamps survives adding one message that also meets it. */
  lemma TsAtLeastGrows(a: seq<Message>, b: seq<Message>, m: Message, t: int)
    requires multiset(a) == multiset(b) + multiset{m}
    requires TsAtLeast(b, t) && m.ts >= t
    ensures TsAtLeast(a, t)
  {
    forall k | 0 <= k < |a| ensures a[k].ts >= t {
      assert a[k] in multiset(a);
      if a[k] != m {
        assert a[k] in multiset(b);
        var j :| 0 <= j < |b| && b[j] == a[k];
      }
    }
  }

  /** Puts `m` in front of the first message it does not come after, so that equal
      timestamps keep their relative order. */
  function InsertByTs(m: Message, sorted: seq<Message>): seq<Message> {
    if sorted == [] || m.ts <= sorted[0].ts then [m] + sorted
    else [sorted[0]] + InsertByTs(m, sorted[1..])
  }

  lemma {:induction false} InsertByTsPermutes(m: Message, ms: seq<Message>)
    ensures multiset(InsertByTs(m, ms)) == multiset(ms) + multiset{m}
  {
    if !(ms == [] || m.ts <= ms[0].ts) {
      InsertByTsPermutes(m, ms[1..]);
      assert ms == [ms[0]] + ms[1..];
    }
  }

  lemma {:induction false} InsertByTsSorts(m: Message, sorted: seq<Message>)
    requires SortedByTs(sorted)
    ensures SortedByTs(InsertByTs(m, sorted))
  {
    if !(sorted == [] || m.ts <= sorted[0].ts) {
      InsertByTsSorts(m, sorted[1..]);
      InsertByTsPermutes(m, sorted[1..]);
      TsAtLeastGrows(InsertByTs(m, sorted[1..]), sorted[1..], m, sorted[0].ts);
    }
  }

  /** `ORDER BY ts ASC`, as a stable sort: SQL leaves the order of equal timestamps open,
      and this model keeps them in log (id) order. */
  function SortByTs(ms: seq<Message>): seq<Message> {
    if ms == [] then [] else InsertByTs(ms[0], SortByTs(ms[1..]))
  }

  /** The sort's result is in timestamp order and holds the same messages. */
  lemma {:induction false} SortByTsSortsAndPermutes(ms: seq<Message>)
    ensures SortedByTs(SortByTs(ms)) && multiset(SortByTs(ms)) == multiset(ms)
  {
    if ms != [] {
      SortByTsSortsAndPermutes(ms[1..]);
      InsertByTsSorts(ms[0], SortByTs(ms[1..]));
      InsertByTsPermutes(ms[0], SortByTs(ms[1..]));
      assert ms == [ms[0]] + ms[1..];
    }
  }

  /** The room's messages in the order the history query returns them. */
  function Ordered(rows: seq<Message>, room: string): seq<Message> {
    SortByTs(RoomRows(rows, room))
  }

  /** `LIMIT limit OFFSET offset` applied to `ordered`. */
  function Window(ordered: seq<Message>, offset: nat, limit: nat): (w: seq<Message>)
    ensures |w| == if offset >= |ordered| then 0 else Min(limit, |ordered| - offset)
    ensures forall i :: 0 <= i < |w| ==> w[i] == ordered[offset + i]
  {
    if offset >= |ordered| then [] else ordered[offset..Min(offset + limit, |ordered|)]
  }

  /** loadHistory's replacement for a limit that is not positive. */
  const FallbackLimit: int := 20

  function EffectiveLimit(limit: int): (l: int)
    ensures l >= 1
    ensures l == limit || (limit <= 0 && l == FallbackLimit)
  {
    if limit <= 0 then FallbackLimit else limit
  }

  /** The number of rows before page `page`: `(page - 1) * limit`, where a negative
      offset skips nothing (SQLite reads a negative OFFSET as zero). The product is taken
      over unbounded integers; OffsetAsWritten is the 64-bit product the code computes. */
  function Offset(page: int, limit: int): (o: nat)
    requires limit >= 1
    ensures o == 0 <==> page <= 1
  {
    if page <= 1 then 0 else (page - 1) * limit
  }

  /** The offset of page `page` is a whole number of pages: `page - 1` of them. */
  lemma OffsetCountsWholePages(page: int, limit: int)
    requires page >= 1 && limit >= 1
    ensures Offset(page, limit) % limit == 0 && Offset(page, limit) / limit == page - 1
  {
    DivMul(page - 1, limit);
  }

  /** The next page starts one page further on. */
  lemma NextOffset(page: int, limit: int)
    requires page >= 1 && limit >= 1
    ensures Offset(page + 1, limit) == Offset(page, limit) + limit
  {
  }

  /** A later page starts at least one whole page further on. */
  lemma OffsetGrows(p: int, q: int, limit: int)
    requires 1 <= p < q && limit >= 1
    ensures Offset(p, limit) + limit <= Offset(q, limit)
  {
    assert (q - 1) * limit >= p * limit == (p - 1) * limit + limit;
  }

  lemma DivMul(q: nat, l: int)
    requires l >= 1
    ensures (q * l) % l == 0 && (q * l) / l == q
  {
    var d, r := (q * l) / l, (q * l) % l;
    assert q * l == d * l + r && 0 <= r < l;
    assert (q - d) * l == q * l - d * l;
    MulSign(q - d, l);
  }

  /** A product with a factor l >= 1 has the sign of the other factor and is at least as far from zero. */
  lemma {:induction false} MulSign(a: int, l: int)
    requires l >= 1
    ensures a >= 1 ==> a * l >= l
    ensures a <= -1 ==> a * l <= -l
    ensures a >= 0 ==> a * l >= a
    ensures a <= 0 ==> a * l <= a
    decreases l
  {
    if l > 1 {
      MulSign(a, l - 1);
      assert a * l == a * (l - 1) + a;
    }
  }

  /** The result set of loadHistory's query: page `page` of the room's messages in timestamp order. */
  function HistoryPage(rows: seq<Message>, room: string, page: int, limit: int): seq<Message> {
    var l := EffectiveLimit(limit);
    Window(Ordered(rows, room), Offset(page, l), l)
  }

  /** A page holds at most `limit` messages, all of them the room's and in timestamp order,
      and it is empty exactly when its offset is at or past the room's message count. */
  lemma PageShape(rows: seq<Message>, room: string, page: int, limit: int)
    ensures var p := HistoryPage(rows, room, page, limit);
      && |p| <= EffectiveLimit(limit)
      && (forall m :: m in p ==> m in rows && m.room == room)
      && SortedByTs(p)
      && (p == [] <==> Offset(page, EffectiveLimit(limit)) >= |RoomRows(rows, room)|)
  {
    var l := EffectiveLimit(limit);
    OrderedMembers(rows, room);
    SortByTsSortsAndPermutes(RoomRows(rows, room));
    WindowWithin(Ordered(rows, room), Offset(page, l), l);
  }

  /** Ordering a room's messages keeps exactly those messages. */
  lemma OrderedMembers(rows: seq<Message>, room: string)
    ensures |Ordered(rows, room)| == |RoomRows(rows, room)|
    ensures forall m :: m in Ordered(rows, room) ==> m in rows && m.room == room
  {
    var own := RoomRows(rows, room);
    var ordered := SortByTs(own);
    RoomRowsSelects(rows, room);
    SortByTsSortsAndPermutes(own);
    assert |multiset(ordered)| == |multiset(own)|;
    forall m | m in ordered ensures m in rows && m.room == room {
      assert m in multiset(ordered);
      assert m in multiset(own);
    }
  }

  /** A window is a stretch of its sequence of at most `l` elements, so it keeps the sequence's order. */
  lemma WindowWithin(s: seq<Message>, o: nat, l: nat)
    ensures |Window(s, o, l)| <= l
    ensures forall m :: m in Window(s, o, l) ==> m in s
    ensures SortedByTs(s) ==> SortedByTs(Window(s, o, l))
  {
    var w := Window(s, o, l);
    forall m | m in w ensures m in s {
      var i :| 0 <= i < |w| && w[i] == m;
      assert s[o + i] == m;
    }
  }

  /** Two windows of size l, the second starting where the first ends, cover one stretch of 2l. */
  lemma WindowsAdjoin(s: seq<Message>, o: nat, l: nat)
    ensures Window(s, o, l) + Window(s, o + l, l) == if o >= |s| then [] else s[o..Min(o + 2 * l, |s|)]
  {
    if o < |s| {
      assert Window(s, o, l) == s[o..Min(o + l, |s|)];
      if o + l < |s| {
        assert Window(s, o + l, l) == s[o + l..Min(o + 2 * l, |s|)];
      }
    }
  }

  /** Page `page` and page `page + 1` of the same size follow each other without a gap:
      together they are the ordered messages from page `page`'s offset on, two pages long. */
  lemma ConsecutivePagesAdjoin(rows: seq<Message>, room: string, page: int, limit: int)
    requires page >= 1
    ensures var ordered := Ordered(rows, room); var l := EffectiveLimit(limit); var o := Offset(page, l);
      HistoryPage(rows, room, page, limit) + HistoryPage(rows, room, page + 1, limit)
        == if o >= |ordered| then [] else ordered[o..Min(o + 2 * l, |ordered|)]
  {
    var l := EffectiveLimit(limit);
    var ordered := Ordered(rows, room);
    var o := Offset(page, l);
    NextOffset(page, l);
    assert HistoryPage(rows, room, page, limit) == Window(ordered, o, l);
    assert HistoryPage(rows, room, page + 1, limit) == Window(ordered, o + l, l);
    WindowsAdjoin(ordered, o, l);
  }

  /** Pages 1 to k of the same size, one after the other. */
  function FirstPages(rows: seq<Message>, room: string, limit: int, k: nat): seq<Message> {
    if k == 0 then [] else FirstPages(rows, room, limit, k - 1) + HistoryPage(rows, room, k, limit)
  }

  lemma PrefixThenWindow(s: seq<Message>, o: nat, l: nat)
    ensures s[..Min(o, |s|)] + Window(s, o, l) == s[..Min(o + l, |s|)]
  {
    if o < |s| {
      assert s[..o] + s[o..Min(o + l, |s|)] == s[..Min(o + l, |s|)];
    }
  }

  /** Reading pages 1, 2, ..., k in turn yields exactly the first k * limit messages of the room,
      so paging loses nothing and repeats nothing. */
  lemma {:induction false} FirstPagesArePrefix(rows: seq<Message>, room: string, limit: int, k: nat)
    ensures var ordered := Ordered(rows, room);
      FirstPages(rows, room, limit, k) == ordered[..Min(k * EffectiveLimit(limit), |ordered|)]
  {
    if k > 0 {
      FirstPagesArePrefix(rows, room, limit, k - 1);
      NextPageExtendsPrefix(rows, room, limit, k);
    }
  }

  lemma NextPageExtendsPrefix(rows: seq<Message>, room: string, limit: int, k: nat)
    requires k > 0
    requires var ordered := Ordered(rows, room);
      FirstPages(rows, room, limit, k - 1) == ordered[..Min((k - 1) * EffectiveLimit(limit), |ordered|)]
    ensures var ordered := Ordered(rows, room);
      FirstPages(rows, room, limit, k) == ordered[..Min(k * EffectiveLimit(limit), |ordered|)]
  {
    var l := EffectiveLimit(limit);
    var ordered := Ordered(rows, room);
    var o := (k - 1) * l;
    assert k * l == o + l;
    assert Offset(k, l) == o;
    assert HistoryPage(rows, room, k, limit) == Window(ordered, o, l);
    PrefixThenWindow(ordered, o, l);
  }

  lemma {:induction false} InsertKeepsDistinct(m: Message, sorted: seq<Message>)
    requires Distinct(sorted) && m !in sorted
    ensures Distinct(InsertByTs(m, sorted))
  {
    if !(sorted == [] || m.ts <= sorted[0].ts) {
      InsertKeepsDistinct(m, sorted[1..]);
      InsertByTsPermutes(m, sorted[1..]);
      var rest := InsertByTs(m, sorted[1..]);
      assert sorted[0] !in multiset(rest);
    }
  }

  lemma {:induction false} SortKeepsDistinct(ms: seq<Message>)
    requires Distinct(ms)
    ensures Distinct(SortByTs(ms))
  {
    if ms != [] {
      SortKeepsDistinct(ms[1..]);
      SortByTsSortsAndPermutes(ms[1..]);
      assert ms[0] !in multiset(SortByTs(ms[1..]));
      InsertKeepsDistinct(ms[0], SortByTs(ms[1..]));
    }
  }

  /** Windows over index ranges that do not meet share no element of a duplicate-free sequence. */
  lemma WindowsDisjoint(s: seq<Message>, o1: nat, o2: nat, l: nat)
    requires Distinct(s) && o1 + l <= o2
    ensures forall m :: m in Window(s, o1, l) ==> m !in Window(s, o2, l)
  {
    var a := Window(s, o1, l);
    var b := Window(s, o2, l);
  }

  /** With the log's ids unique, two different pages of the same size share no message. */
  lemma PagesAreDisjoint(rows: seq<Message>, room: string, p: int, q: int, limit: int)
    requires IdsIncreasing(rows)
    requires 1 <= p < q
    ensures forall m :: m in HistoryPage(rows, room, p, limit) ==> m !in HistoryPage(rows, room, q, limit)
  {
    var l := EffectiveLimit(limit);
    RoomRowsKeepIdOrder(rows, room);
    IncreasingIdsAreDistinct(RoomRows(rows, room));
    SortKeepsDistinct(RoomRows(rows, room));
    OffsetGrows(p, q, l);
    WindowsDisjoint(Ordered(rows, room), Offset(p, l), Offset(q, l), l);
  }

  /** Messages already in timestamp order are returned in log order. */
  lemma {:induction false} SortedInputUnchanged(ms: seq<Message>)
    requires SortedByTs(ms)
    ensures SortByTs(ms) == ms
  {
    if ms != [] {
      SortedInputUnchanged(ms[1..]);
    }
  }

  /** When a room's messages were appended with non-decreasing timestamps, page `page` is
      the slice [(page - 1) * limit, page * limit) of them in append order, and empty past the end. */
  lemma AppendOrderPages(rows: seq<Message>, room: string, page: int, limit: int)
    requires SortedByTs(RoomRows(rows, room))
    requires page >= 1 && limit >= 1
    ensures var own := RoomRows(rows, room); var o := (page - 1) * limit;
      HistoryPage(rows, room, page, limit) == if o >= |own| then [] else own[o..Min(page * limit, |own|)]
  {
    var own := RoomRows(rows, room);
    SortedInputUnchanged(own);
    assert Ordered(rows, room) == own;
    var o := (page - 1) * limit;
    assert Offset(page, limit) == o;
    assert page * limit == o + limit;
  }

  /** A non-positive page and limit read the same rows as page 1 at loadHistory's fallback size. */
  lemma NonPositiveInputsActAsDefaults(rows: seq<Message>, room: string, page: int, limit: int)
    requires page <= 1 && limit <= 0
    ensures HistoryPage(rows, room, page, limit) == HistoryPage(rows, room, 1, FallbackLimit)
  {
  }

  /** The offset loadHistory actually computes: Go multiplies two 64-bit `int`s with
      wrap-around, and SQLite reads a negative OFFSET as zero. */
  function OffsetAsWritten(page: int, limit: int): (o: nat)
    requires IsInt64(page) && IsInt64(limit) && limit >= 1
    ensures IsInt64(o)
    ensures IsInt64((page - 1) * limit) ==> o == Offset(page, limit)
  {
    var w := Wrap64(Wrap64(page - 1) * limit);
    MulSign(page - 1, limit);
    if w < 0 then 0 else w
  }

  /** The page loadHistory's query returns, with the offset the code computes. */
  function PageAsWritten(rows: seq<Message>, room: string, page: int, limit: int): seq<Message>
    requires IsInt64(page) && IsInt64(limit)
  {
    var l := EffectiveLimit(limit);
    Window(Ordered(rows, room), OffsetAsWritten(page, l), l)
  }

  /** Whenever `(page - 1) * limit` fits in an `int`, the query returns the intended page. */
  lemma PageAsWrittenAgrees(rows: seq<Message>, room: string, page: int, limit: int)
    requires IsInt64(page) && IsInt64(limit)
    requires IsInt64((page - 1) * EffectiveLimit(limit))
    ensures PageAsWritten(rows, room, page, limit) == HistoryPage(rows, room, page, limit)
  {
  }

  /** A page number historyHandler accepts overflows the offset: page 2^62 + 1 of size 4 wraps
      to offset 0 and serves the first page again, where the page lies far past any room's end. */
  lemma OverflowedOffsetRepeatsFirstPage(m: Message, page: int)
    requires page == 0x4000_0000_0000_0001
    ensures Atoi(FormatInt(page)) == Some(page)
    ensures OffsetAsWritten(page, 4) == 0
    ensures PageAsWritten([m], m.room, page, 4) == [m]
    ensures HistoryPage([m], m.room, page, 4) == []
  {
    AtoiFormatInt(page);
    OverflowWrapsToZero(page);
    assert [m][1..] == [];
    assert RoomRows([m], m.room) == [m] + RoomRows([], m.room);
    assert SortByTs([m]) == InsertByTs(m, SortByTs([]));
  }

  /** The 64-bit arithmetic behind OverflowedOffsetRepeatsFirstPage: (2^62 + 1 - 1) * 4 is 2^64, which wraps to 0. */
  lemma OverflowWrapsToZero(page: int)
    requires page == 0x4000_0000_0000_0001
    ensures OffsetAsWritten(page, 4) == 0
    ensures Offset(page, 4) == TwoTo64
  {
    var q := page - 1;
    assert IsInt64(q);
    assert Wrap64(q) == q;
    assert q * 4 == TwoTo64;
    assert Wrap64(TwoTo64) == 0;
  }

  datatype HistoryResponse = BadRequest | ServerError | JsonNull | JsonArray(messages: seq<Message>)

  const DefaultPage: int := 1
  const DefaultLimit: int := 30

  /** historyHandler's reading of `?page=` and `?limit=`: the parsed value when it is a
      positive `int`, the default otherwise (absent, not a number, out of range, zero or negative). */
  function PositiveParam(s: string, default: int): (v: int)
    requires 1 <= default <= MaxInt64
    ensures 1 <= v <= MaxInt64
    ensures Atoi(s) == Some(v) || (v == default && !(Atoi(s).Some? && Atoi(s).value > 0))
  {
    match Atoi(s)
    case Some(n) => if n > 0 then n else default
    case None => default
  }

  /** Every positive number a client spells is taken as is; absent, zero and negative values fall back. */
  lemma PositiveParamExamples(n: int, default: int)
    requires 1 <= n <= MaxInt64 && 1 <= default <= MaxInt64
    ensures PositiveParam(FormatInt(n), default) == n
    ensures PositiveParam("", default) == default
    ensures PositiveParam("0", default) == default
    ensures PositiveParam("-5", default) == default
  {
    AtoiFormatInt(n);
    AtoiFormatInt(0);
    AtoiFormatInt(-5);
    assert FormatInt(0) == "0";
    assert FormatInt(-5) == "-5";
  }

  /** loadHistory: runs the query, with the offset computed in 64-bit arithmetic, and copies its rows
      out one by one. A failing query is an error (None). Otherwise the result is the query's page,
      which is the requested page whenever `(page - 1) * limit` does not overflow. */
  method LoadHistory(log: MessageLog, room: string, page: int, limit: int, queryFails: bool)
    returns (r: Option<seq<Message>>)
    requires IsInt64(page) && IsInt64(limit)
    ensures r.None? <==> queryFails
    ensures r.Some? ==> r.value == PageAsWritten(log.rows, room, page, limit)
    ensures r.Some? && IsInt64((page - 1) * EffectiveLimit(limit)) ==> r.value == HistoryPage(log.rows, room, page, limit)
  {
    if queryFails {
      return None;
    }
    var l := EffectiveLimit(limit);
    var resultSet := Window(Ordered(log.rows, room), OffsetAsWritten(page, l), l);
    var out: seq<Message> := [];
    var i := 0;
    while i < |resultSet|
      invariant 0 <= i <= |resultSet|
      invariant out == resultSet[..i]
    {
      out := out + [resultSet[i]];
      i := i + 1;
    }
    if IsInt64((page - 1) * l) {
      PageAsWrittenAgrees(log.rows, room, page, limit);
    }
    return Some(out);
  }

  /** historyHandler: `room` is required (not trimmed); page and limit are clamped; a storage
      failure is a server error; an empty page is encoded as JSON `null` (a nil slice). The page is
      the one loadHistory's query returns, which is the requested one unless the offset overflows. */
  method HistoryHandler(log: MessageLog, room: string, pageArg: string, limitArg: string, queryFails: bool)
    returns (resp: HistoryResponse)
    ensures room == "" ==> resp == BadRequest
    ensures room != "" && queryFails ==> resp == ServerError
    ensures room != "" && !queryFails ==>
      var msgs := PageAsWritten(log.rows, room, PositiveParam(pageArg, DefaultPage), PositiveParam(limitArg, DefaultLimit));
      resp == if msgs == [] then JsonNull else JsonArray(msgs)
    ensures room != "" && !queryFails ==>
      var page, limit := PositiveParam(pageArg, DefaultPage), PositiveParam(limitArg, DefaultLimit);
      (page - 1) * limit <= MaxInt64 ==>
        var msgs := HistoryPage(log.rows, room, page, limit);
        resp == if msgs == [] then JsonNull else JsonArray(msgs)
  {
    if room == "" {
      return BadRequest;
    }
    var page := PositiveParam(pageArg, DefaultPage);
    var limit := PositiveParam(limitArg, DefaultLimit);
    MulSign(page - 1, limit);
    var msgs := LoadHistory(log, room, page, limit, queryFails);
    match msgs
    case None => resp := ServerError;
    case Some(ms) => resp := if ms == [] then JsonNull else JsonArray(ms);
  }
}
