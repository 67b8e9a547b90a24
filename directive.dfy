/**
 * `ContributorsDirective.run`: read the directive options, check the shape of
 * the decoded API payload, turn each record into a `Contributor`, rank them and
 * render the ranking.
 *
 * The HTTP request and JSON decoding are not modelled: `run` receives the
 * already-decoded payload. A payload that decoded to an object is an error
 * naming the repository; an array of records is the success path.
 */
module Directive {
  import opened Wrappers
  import opened Ranking
  import opened Render
  import Strings

  /** The options as the host hands them over; `limit` was checked by `positive_int`. */
  datatype Options = Options(limit: Option<int>, order: Option<string>, exclude: Option<string>)

  /** What `run` derives from the options. */
  datatype Config = Config(limit: nat, descending: bool, exclude: seq<string>)

  /** One object of the contributors array; `contributions` is `None` when the key is absent. */
  datatype Record = Record(login: string, htmlUrl: string, contributions: Option<int>)

  /** The decoded response body: an array of records or an object. */
  datatype Payload = JsonArray(records: seq<Record>) | JsonObject(fields: map<string, string>)

  datatype Error =
    | RepositoryNotFound(message: string)
      /** a kept contributor has no count, so the sort cannot order it */
    | MissingCount(login: string)

  const DefaultLimit: nat := 10

  predicate ValidOptions(o: Options) {
    o.limit.Some? ==> o.limit.value > 0
  }

  /**
   * The limit (10 when absent), the direction (descending unless `order` is
   * given and differs from "DESC") and the exclude list (the option, empty
   * when absent, cut at every comma).
   */
  function ReadOptions(o: Options): (cfg: Config)
    requires ValidOptions(o)
    ensures cfg.limit > 0
    ensures cfg.limit == if o.limit.Some? then o.limit.value else DefaultLimit
    ensures cfg.descending <==> o.order.None? || o.order.value == "DESC"
    ensures Strings.Join(cfg.exclude, ',') == o.exclude.GetOr("")
    ensures forall i :: 0 <= i < |cfg.exclude| ==> ',' !in cfg.exclude[i]
    ensures o.exclude.None? ==> cfg.exclude == [""]
    ensures |cfg.exclude| == Strings.Occurrences(o.exclude.GetOr(""), ',') + 1
  {
    var text := o.exclude.GetOr("");
    Strings.JoinSplit(text, ',');
    Strings.SplitCount(text, ',');
    Config(o.limit.GetOr(DefaultLimit), o.order.GetOr("DESC") == "DESC", Strings.Split(text, ','))
  }

  function ToContributor(rec: Record): Contributor
    requires rec.contributions.Some?
  {
    Contributor(rec.login, rec.htmlUrl, rec.contributions.value)
  }

  /** The contributors built from the records that carry a count, in payload order. */
  function Counted(records: seq<Record>): seq<Contributor>
  {
    if records == [] then []
    else if records[0].contributions.Some? then [ToContributor(records[0])] + Counted(records[1..])
    else Counted(records[1..])
  }

  /**
   * One `Contributor` per record, in payload order, together with the sort's
   * need for comparable counts: a record without a count is harmless when its
   * login is excluded (it is filtered out before any comparison) and an error
   * otherwise.
   */
  function Decode(records: seq<Record>, exclude: seq<string>): (r: Result<seq<Contributor>, Error>)
    ensures r.Failure? <==>
      exists i :: 0 <= i < |records| && records[i].contributions.None? && records[i].login !in exclude
    ensures r.Failure? ==> r.error.MissingCount? && r.error.login !in exclude
    ensures r.Success? ==> r.value == Counted(records)
  {
    if records == [] then Success([])
    else
      var rec := records[0];
      if rec.contributions.None? && rec.login !in exclude then Failure(MissingCount(rec.login))
      else match Decode(records[1..], exclude)
        case Failure(e) => Failure(e)
        case Success(rest) =>
          Success((if rec.contributions.Some? then [ToContributor(rec)] else []) + rest)
  }

  function NotFoundMessage(repository: string): string {
    "The repository " + repository + " does not exist."
  }

  /** `ContributorsDirective.run` on an already-decoded payload. */
  function Run(repository: string, o: Options, payload: Payload): (r: Result<seq<Node>, Error>)
    requires ValidOptions(o)
    ensures payload.JsonObject? ==> r == Failure(RepositoryNotFound(NotFoundMessage(repository)))
    ensures payload.JsonArray? && r.Failure? ==> r.error.MissingCount?
    ensures r.Success? ==> payload.JsonArray? && |r.value| == 1
    ensures r.Success? ==>
      r.value[0].Element? && r.value[0].tag == BulletList && |r.value[0].children| <= ReadOptions(o).limit
  {
    var cfg := ReadOptions(o);
    match payload
    case JsonObject(_) => Failure(RepositoryNotFound(NotFoundMessage(repository)))
    case JsonArray(records) =>
      match Decode(records, cfg.exclude)
      case Failure(e) => Failure(e)
      case Success(cs) => Success([RenderList(Rank(cs, cfg.descending, cfg.limit, cfg.exclude))])
  }

  // ---- properties of the directive ----

  /** An object payload is always an error naming the repository, never an empty list. */
  lemma ObjectPayloadFails(repository: string, o: Options, fields: map<string, string>)
    requires ValidOptions(o)
    ensures var r := Run(repository, o, JsonObject(fields));
      r.Failure? && r.error.RepositoryNotFound? && Strings.Contains(r.error.message, repository)
  {
    var msg := NotFoundMessage(repository);
    assert repository <= msg[15..];
  }

  /** An empty array is not an error: it renders as one empty bullet list. */
  lemma EmptyArrayRendersEmptyList(repository: string, o: Options)
    requires ValidOptions(o)
    ensures Run(repository, o, JsonArray([])) == Success([Element(BulletList, [])])
  {
    var cfg := ReadOptions(o);
    assert Rank([], cfg.descending, cfg.limit, cfg.exclude) == [];
    assert Items([]) == [];
  }

  lemma {:induction false} CountedAll(records: seq<Record>)
    requires forall i :: 0 <= i < |records| ==> records[i].contributions.Some?
    ensures Counted(records) == seq(|records|, i requires 0 <= i < |records| => ToContributor(records[i]))
  {
    if records != [] {
      CountedAll(records[1..]);
    }
  }

  /**
   * The whole pipeline: whenever no kept record lacks a count, `run` returns a
   * single bullet list whose items are, in order, exactly the ranking of the
   * contributors the counted records describe. When every record has a count,
   * those are the contributors of all records, one per record.
   */
  lemma RunRendersRanking(repository: string, o: Options, records: seq<Record>)
    requires ValidOptions(o)
    requires forall i :: 0 <= i < |records| && records[i].contributions.None? ==>
      records[i].login in ReadOptions(o).exclude
    ensures var cfg := ReadOptions(o);
      var r := Run(repository, o, JsonArray(records));
      r.Success? && |r.value| == 1
      && ReadBack(r.value[0]) == Some(Rank(Counted(records), cfg.descending, cfg.limit, cfg.exclude))
    ensures (forall i :: 0 <= i < |records| ==> records[i].contributions.Some?) ==>
      Counted(records) == seq(|records|, i requires 0 <= i < |records| => ToContributor(records[i]))
  {
    var cfg := ReadOptions(o);
    if forall i :: 0 <= i < |records| ==> records[i].contributions.Some? {
      CountedAll(records);
    }
    var ranked := Rank(Counted(records), cfg.descending, cfg.limit, cfg.exclude);
    assert Decode(records, cfg.exclude) == Success(Counted(records));
    assert Run(repository, o, JsonArray(records)) == Success([RenderList(ranked)]);
    RenderReadBack(ranked);
  }

  /** A record without a count is an error exactly when its login is not excluded. */
  lemma MissingCountFails(repository: string, o: Options, records: seq<Record>)
    requires ValidOptions(o)
    ensures Run(repository, o, JsonArray(records)).Failure? <==>
      exists i :: 0 <= i < |records| && records[i].contributions.None?
               && records[i].login !in ReadOptions(o).exclude
  {
  }
}
