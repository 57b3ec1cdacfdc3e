/**
 * The message-id extractor of the email-receipt handler: from the records of
 * an email-receipt event it takes the first record's message id, trims the
 * angle brackets, splits it on `/` and reads owner, repository and issue
 * number from it. Each record is reduced to its optional message id.
 */
module Handler {
  import opened Wrappers
  import opened RustStr
  import opened RustNum

  /** The handler's successful output. */
  datatype Response = Response(owner: string, repo: string, issueNumber: u64)

  /** Why no Response could be extracted. */
  datatype ExtractError =
    | NoRecord
    | NoMessageId
    | Malformed(raw: string)
    | BadIssueNumber(kind: IntErrorKind)

  /** The characters trimmed from both ends of the message id. */
  const Brackets: set<char> := {'<', '>'}

  /** The message id without its surrounding angle brackets. */
  function Trimmed(id: string): string {
    TrimMatches(id, Brackets)
  }

  /**
   * The handler: first record only, its message id or an error, trim, split
   * on `/`, at least four segments, owner and repository verbatim from
   * segments 0 and 1, issue number parsed from segment 3.
   */
  function Extract(records: seq<Option<string>>): (r: Result<Response, ExtractError>)
    ensures r == Err(NoRecord) <==> |records| == 0
    ensures r == Err(NoMessageId) <==> |records| > 0 && records[0] == None
    ensures r.Err? && r.error.Malformed? <==>
              |records| > 0 && records[0].Some? && multiset(Trimmed(records[0].value))['/'] < 3
    ensures r.Err? && r.error.Malformed? ==> records[0] == Some(r.error.raw)
    ensures r.Err? && r.error.BadIssueNumber? <==>
              && |records| > 0 && records[0].Some?
              && |Split(Trimmed(records[0].value), '/')| >= 4
              && ParseU64(Split(Trimmed(records[0].value), '/')[3]).Err?
    ensures r.Err? && r.error.BadIssueNumber? ==>
              && |records| > 0 && records[0].Some?
              && |Split(Trimmed(records[0].value), '/')| >= 4
              && ParseU64(Split(Trimmed(records[0].value), '/')[3]) == Err(r.error.kind)
  {
    if |records| == 0 then Err(NoRecord)
    else match records[0]
      case None => Err(NoMessageId)
      case Some(id) =>
        var parts := Split(Trimmed(id), '/');
        if |parts| < 4 then Err(Malformed(id))
        else match ParseU64(parts[3])
          case Err(kind) => Err(BadIssueNumber(kind))
          case Ok(n) => Ok(Response(parts[0], parts[1], n))
  }

  /**
   * `segs` are the `/`-separated segments of a message id that carries
   * `resp`: at least four, owner and repository first, segment 3 an
   * optional `+` and the decimal digits of the issue number. Segment 2 and
   * the segments after 3 may be anything without a `/`.
   */
  predicate Layout(segs: seq<string>, resp: Response) {
    && |segs| >= 4
    && (forall i :: 0 <= i < |segs| ==> '/' !in segs[i])
    && segs[0] == resp.owner
    && segs[1] == resp.repo
    && IsLiteral(segs[3])
    && Value(Unsigned(segs[3])) == resp.issueNumber as int
  }

  /** The message id `id`, once trimmed, is the segments of `resp` joined with `/`. */
  ghost predicate Encodes(id: string, resp: Response) {
    exists segs :: Layout(segs, resp) && Join(segs, '/') == Trimmed(id)
  }

  /**
   * A message id yields a Response exactly when its trimmed text is the
   * layout of that Response joined with `/`.
   */
  lemma ExtractOkIff(records: seq<Option<string>>, id: string, resp: Response)
    requires |records| > 0 && records[0] == Some(id)
    ensures Extract(records) == Ok(resp) <==> Encodes(id, resp)
  {
    var parts := Split(Trimmed(id), '/');
    if Extract(records) == Ok(resp) {
      ParseU64Spec(parts[3]);
      assert Layout(parts, resp);
    }
    if Encodes(id, resp) {
      var segs :| Layout(segs, resp) && Join(segs, '/') == Trimmed(id);
      SplitJoin(segs, '/');
      ParseU64Spec(segs[3]);
    }
  }

  /** Only the first record is consulted: later records never change the outcome. */
  lemma ExtractFirstRecordOnly(records: seq<Option<string>>, others: seq<Option<string>>)
    requires |records| > 0 && |others| > 0 && records[0] == others[0]
    ensures Extract(records) == Extract(others)
  {
  }

  /**
   * Segment 2 and the segments after 3 never influence the outcome: two
   * message ids that agree on segments 0, 1 and 3 give the same result.
   */
  lemma ExtractIgnoresOtherSegments(id: string, id': string)
    requires |Split(Trimmed(id), '/')| >= 4 && |Split(Trimmed(id'), '/')| >= 4
    requires Split(Trimmed(id), '/')[0] == Split(Trimmed(id'), '/')[0]
    requires Split(Trimmed(id), '/')[1] == Split(Trimmed(id'), '/')[1]
    requires Split(Trimmed(id), '/')[3] == Split(Trimmed(id'), '/')[3]
    ensures Extract([Some(id)]) == Extract([Some(id')])
  {
  }

  /**
   * Angle brackets are optional: wrapping a message id in `<` and `>` gives
   * the same outcome, except that a Malformed error carries the id as given.
   */
  lemma ExtractBracketsOptional(s: string, rest: seq<Option<string>>)
    ensures var bare := Extract([Some(s)] + rest);
            var wrapped := Extract([Some("<" + s + ">")] + rest);
            && (bare.Ok? <==> wrapped.Ok?)
            && (bare.Err? && bare.error.Malformed? <==> wrapped == Err(Malformed("<" + s + ">")))
            && (bare.Err? && bare.error.Malformed? ==> bare == Err(Malformed(s)))
            && (bare.Ok? || bare.error.BadIssueNumber? ==> bare == wrapped)
  {
    TrimMatchesAbsorbs(s, Brackets, '<', '>');
  }

  /**
   * Round trip: owner, repository and a reserved segment without `/`, the
   * owner not starting with an angle bracket, and the decimal text of any
   * `u64` issue number, joined with `/`, bracketed or not, extract back to
   * that owner, repository and issue number.
   */
  lemma ExtractRoundTrip(o: string, rp: string, x: string, n: u64, rest: seq<Option<string>>)
    requires '/' !in o && '/' !in rp && '/' !in x
    requires o == [] || o[0] !in Brackets
    ensures Extract([Some(o + "/" + rp + "/" + x + "/" + Decimal(n as int))] + rest)
            == Ok(Response(o, rp, n))
    ensures Extract([Some("<" + o + "/" + rp + "/" + x + "/" + Decimal(n as int) + ">")] + rest)
            == Ok(Response(o, rp, n))
  {
    var d := Decimal(n as int);
    JoinFour(o, rp, x, d);
    BracketFour(o, rp, x, d);
    ExtractJoinedRoundTrip(o, rp, x, n, rest);
  }

  /** Bracketing the concatenated segments is bracketing their concatenation. */
  lemma BracketFour(o: string, rp: string, x: string, d: string)
    ensures "<" + o + "/" + rp + "/" + x + "/" + d + ">" == "<" + (o + "/" + rp + "/" + x + "/" + d) + ">"
  {
    var c := o + "/" + rp + "/" + x + "/" + d;
    assert "<" + o + "/" + rp + "/" + x + "/" + d == "<" + c;
  }

  /** The round trip, with the message id written as the join of its four segments. */
  lemma ExtractJoinedRoundTrip(o: string, rp: string, x: string, n: u64, rest: seq<Option<string>>)
    requires '/' !in o && '/' !in rp && '/' !in x
    requires o == [] || o[0] !in Brackets
    ensures Extract([Some(Join([o, rp, x, Decimal(n as int)], '/'))] + rest) == Ok(Response(o, rp, n))
    ensures Extract([Some("<" + Join([o, rp, x, Decimal(n as int)], '/') + ">")] + rest) == Ok(Response(o, rp, n))
  {
    var d := Decimal(n as int);
    var segs := [o, rp, x, d];
    var inner := Join(segs, '/');
    var resp := Response(o, rp, n);
    assert Layout(segs, resp) by {
      assert Unsigned(d) == d;
      assert '/' !in d;
    }
    assert Unpadded(inner, Brackets) by {
      JoinFour(o, rp, x, d);
      if o == [] {
        assert inner[0] == '/';
      } else {
        assert inner[0] == o[0];
      }
      assert inner[|inner| - 1] == d[|d| - 1];
    }
    assert Encodes(inner, resp) by {
      TrimMatchesUnpadded(inner, Brackets);
    }
    assert Encodes("<" + inner + ">", resp) by {
      TrimMatchesUnpadded(inner, Brackets);
      TrimMatchesAbsorbs(inner, Brackets, '<', '>');
    }
    ExtractOkIff([Some(inner)] + rest, inner, resp);
    ExtractOkIff([Some("<" + inner + ">")] + rest, "<" + inner + ">", resp);
  }

  /** Joining four segments with `/` is their concatenation with `/` between them. */
  lemma JoinFour(o: string, rp: string, x: string, d: string)
    ensures Join([o, rp, x, d], '/') == o + "/" + rp + "/" + x + "/" + d
  {
    assert [x] + [d] == [x, d] && [rp] + [x, d] == [rp, x, d] && [o] + [rp, x, d] == [o, rp, x, d];
    JoinCons(x, [d], '/');
    JoinCons(rp, [x, d], '/');
    JoinCons(o, [rp, x, d], '/');
  }
}
