/** The fetch pipeline behind the index page (minihub.go:147-269), run one step at a
    time: the catalog, then the tag list of each repository in catalog order
    (`fetchRegistryImages`), then the manifest and digest of each tag of each listed
    repository (`fetchRegistryTags`), and the page data `index` assembles from them.
    Every registry call and every decode is an input outcome. */
module Pipeline {
  import opened Types
  import opened TagRanking

  /** The level of every message the error collector records. */
  const DANGER: string := "danger"

  /** The response header the deletion digest is read from. */
  const DIGEST_HEADER: string := "Docker-Content-Digest"

  /** The history entry holding the image configuration as nested JSON. */
  const V1_KEY: string := "v1Compatibility"

  /** `GET /v2/_catalog` and the decode of its body. */
  datatype CatalogReply = CatalogReply(get: Outcome, decode: Fetch<seq<string>>)

  /** `GET /v2/<name>/tags/list` and the decode of its body. */
  datatype TagListReply = TagListReply(get: Outcome, decode: Fetch<RegistryImage>)

  /** The four steps that resolve one tag: `GET /v2/<name>/manifests/<tag>`, the decode
      of its body, building the digest request, and sending it. */
  datatype ManifestReply = ManifestReply(get: Outcome, decode: Fetch<Manifest>, request: Outcome, digest: Fetch<Header>)

  /** What the registry answers, per URL. */
  datatype Registry = Registry(
    catalog: CatalogReply,
    tagList: string -> TagListReply,
    manifest: (string, string) -> ManifestReply)

  /** The library decoders: `json.Unmarshal` of a `v1Compatibility` string and
      `time.Parse` of a commit date. */
  datatype Decoders = Decoders(v1Compatibility: string -> Fetch<Info>, commitDate: DateParser)

  /** What a worker emitted before it stopped, and the error that stopped it, if any. */
  datatype Partial<T> = Partial(items: seq<T>, failure: Option<string>)

  /** A GET followed by a decode of its body: the first error wins. */
  function AfterGet<T>(get: Outcome, decode: Fetch<T>): Fetch<T> {
    match get
    case Fail(e) => Err(e)
    case Pass => decode
  }

  function Catalog(reg: Registry): (r: Fetch<seq<string>>)
    ensures reg.catalog.get.Fail? ==> r == Err(reg.catalog.get.error)
    ensures reg.catalog.get.Pass? ==> r == reg.catalog.decode
  {
    AfterGet(reg.catalog.get, reg.catalog.decode)
  }

  function TagList(reg: Registry, name: string): (r: Fetch<RegistryImage>)
    ensures reg.tagList(name).get.Fail? ==> r == Err(reg.tagList(name).get.error)
    ensures reg.tagList(name).get.Pass? ==> r == reg.tagList(name).decode
  {
    AfterGet(reg.tagList(name).get, reg.tagList(name).decode)
  }

  /** `fetchRegistryImages`: lists the repositories in order and stops at the first
      failure, so it emits exactly the longest prefix of the catalog whose tag lists
      were fetched and decoded, and at most one error. */
  function ListImages(reg: Registry, names: seq<string>): (r: Partial<RegistryImage>)
    ensures |r.items| <= |names|
    ensures forall i :: 0 <= i < |r.items| ==> TagList(reg, names[i]) == Ok(r.items[i])
    ensures r.failure.None? <==> |r.items| == |names|
    ensures r.failure.Some? ==> TagList(reg, names[|r.items|]) == Err(r.failure.value)
    decreases |names|
  {
    if names == [] then Partial([], None)
    else
      match TagList(reg, names[0])
      case Err(e) => Partial([], Some(e))
      case Ok(ri) =>
        var rest := ListImages(reg, names[1..]);
        assert forall i :: 1 <= i < |names| ==> names[1..][i - 1] == names[i];
        Partial([ri] + rest.items, rest.failure)
  }

  predicate HasDigest(h: Header) {
    DIGEST_HEADER in h && |h[DIGEST_HEADER]| > 0
  }

  /** Every step of resolving a tag succeeds. */
  predicate Succeeds(m: ManifestReply) {
    m.get.Pass? && m.decode.Ok? && m.request.Pass? && m.digest.Ok?
  }

  /** Resolving the tag neither indexes an empty `History` nor takes the first value of
      a missing digest header; either would panic and end the process. */
  predicate ManifestSafe(m: ManifestReply) {
    && (m.get.Pass? && m.decode.Ok? ==> |m.decode.value.history| > 0)
    && (Succeeds(m) ==> HasDigest(m.digest.value))
  }

  /** `History[0]["v1Compatibility"]`; a missing key reads as the empty string. */
  function V1Compatibility(m: Manifest): (r: string)
    requires |m.history| > 0
    ensures V1_KEY in m.history[0] ==> r == m.history[0][V1_KEY]
    ensures V1_KEY !in m.history[0] ==> r == ""
  {
    if V1_KEY in m.history[0] then m.history[0][V1_KEY] else ""
  }

  /** `FirstHistory`: the decoded configuration, or the zero value when the nested JSON
      does not decode (the error is discarded). */
  function FirstHistory(dec: Decoders, m: Manifest): (info: Info)
    requires |m.history| > 0
    ensures dec.v1Compatibility(V1Compatibility(m)).Ok? ==> info == dec.v1Compatibility(V1Compatibility(m)).value
    ensures dec.v1Compatibility(V1Compatibility(m)).Err? ==> info == EMPTY_INFO
  {
    match dec.v1Compatibility(V1Compatibility(m))
    case Ok(info) => info
    case Err(_) => EMPTY_INFO
  }

  /** One iteration of the loop in `fetchRegistryTags` as written: it may only be run
      on replies that do not make it panic. */
  function ResolveTagAsWritten(dec: Decoders, tagName: string, m: ManifestReply): (r: Fetch<TemplateTag>)
    requires ManifestSafe(m)
    ensures r.Ok? <==> Succeeds(m)
    ensures r.Ok? ==> r.value.name == tagName
    ensures r.Ok? ==> r.value.info == FirstHistory(dec, m.decode.value)
    ensures r.Ok? ==> r.value.digest == m.digest.value[DIGEST_HEADER][0]
  {
    if m.get.Fail? then Err(m.get.error)
    else if m.decode.Err? then Err(m.decode.error)
    else if m.request.Fail? then Err(m.request.error)
    else if m.digest.Err? then Err(m.digest.error)
    else
      var manifest := m.decode.value;
      Ok(TemplateTag(tagName, FirstHistory(dec, manifest), m.digest.value[DIGEST_HEADER][0]))
  }

  /** A manifest with an empty history, or a digest reply without the digest header,
      makes the loop as written panic. */
  lemma MissingDataPanics()
    ensures !ManifestSafe(ManifestReply(Pass, Ok(Manifest([])), Pass, Ok(map[])))
    ensures !ManifestSafe(ManifestReply(Pass, Ok(Manifest([map[]])), Pass, Ok(map[])))
    ensures !ManifestSafe(ManifestReply(Pass, Ok(Manifest([map[]])), Pass, Ok(map[DIGEST_HEADER := []])))
  {
    var none: Header := map[];
    assert DIGEST_HEADER !in none;
  }

  /** The error recorded for a manifest whose history is empty. */
  const NO_HISTORY: string := "manifest has no history"

  /** The error recorded for a digest reply without the digest header. */
  const NO_DIGEST: string := "response has no Docker-Content-Digest header"

  /** One iteration of the loop in `fetchRegistryTags`, with the two panics replaced
      by errors that stop the repository's worker like any other failure. */
  function ResolveTag(dec: Decoders, tagName: string, m: ManifestReply): (r: Fetch<TemplateTag>)
    ensures r.Ok? <==> Succeeds(m) && ManifestSafe(m)
    ensures r.Ok? ==> r.value.name == tagName
    ensures r.Ok? ==> r.value.info == FirstHistory(dec, m.decode.value)
    ensures r.Ok? ==> r.value.digest == m.digest.value[DIGEST_HEADER][0]
    ensures ManifestSafe(m) ==> r == ResolveTagAsWritten(dec, tagName, m)
  {
    if m.get.Fail? then Err(m.get.error)
    else if m.decode.Err? then Err(m.decode.error)
    else if |m.decode.value.history| == 0 then Err(NO_HISTORY)
    else if m.request.Fail? then Err(m.request.error)
    else if m.digest.Err? then Err(m.digest.error)
    else if !HasDigest(m.digest.value) then Err(NO_DIGEST)
    else
      var manifest := m.decode.value;
      Ok(TemplateTag(tagName, FirstHistory(dec, manifest), m.digest.value[DIGEST_HEADER][0]))
  }

  /** Where the loop as written panics, the corrected one records an error instead. */
  lemma MissingDataReported(dec: Decoders, tagName: string, m: ManifestReply)
    requires !ManifestSafe(m)
    ensures ResolveTag(dec, tagName, m) == Err(NO_HISTORY) || ResolveTag(dec, tagName, m) == Err(NO_DIGEST)
  {
  }

  /** A `v1Compatibility` that does not decode neither fails the tag nor records a
      message: the tag is emitted with empty provenance. */
  lemma MalformedProvenanceIgnored(dec: Decoders, tagName: string, m: ManifestReply)
    requires ManifestSafe(m) && Succeeds(m)
    requires dec.v1Compatibility(V1Compatibility(m.decode.value)).Err?
    ensures ResolveTag(dec, tagName, m) == Ok(TemplateTag(tagName, EMPTY_INFO, m.digest.value[DIGEST_HEADER][0]))
  {
  }

  /** `fetchRegistryTags`: resolves the tags in list order and stops at the first
      failure, so it emits exactly the longest fully resolved prefix of the tag list,
      each named by its list entry, and at most one error. */
  function ResolveTags(reg: Registry, dec: Decoders, repo: string, tags: seq<string>): (r: Partial<TemplateTag>)
    ensures |r.items| <= |tags|
    ensures forall i :: 0 <= i < |r.items| ==> ResolveTag(dec, tags[i], reg.manifest(repo, tags[i])) == Ok(r.items[i])
    ensures forall i :: 0 <= i < |r.items| ==> r.items[i].name == tags[i]
    ensures r.failure.None? <==> |r.items| == |tags|
    ensures r.failure.Some? ==> ResolveTag(dec, tags[|r.items|], reg.manifest(repo, tags[|r.items|])) == Err(r.failure.value)
    decreases |tags|
  {
    if tags == [] then Partial([], None)
    else
      match ResolveTag(dec, tags[0], reg.manifest(repo, tags[0]))
      case Err(e) => Partial([], Some(e))
      case Ok(t) =>
        var rest := ResolveTags(reg, dec, repo, tags[1..]);
        assert forall i :: 1 <= i < |tags| ==> tags[1..][i - 1] == tags[i];
        Partial([t] + rest.items, rest.failure)
  }

  function FailureText(failure: Option<string>): seq<string> {
    match failure
    case None => []
    case Some(e) => [e]
  }

  /** The errors of the per-repository workers, in catalog order: at most one each. */
  function ResolutionErrors(reg: Registry, dec: Decoders, records: seq<RegistryImage>): (errs: seq<string>)
    ensures |errs| <= |records|
  {
    if records == [] then []
    else
      var last := records[|records| - 1];
      ResolutionErrors(reg, dec, records[..|records| - 1])
        + FailureText(ResolveTags(reg, dec, last.name, last.tags).failure)
  }

  /** Every error the request's workers send to the collector: the catalog error alone,
      or the per-repository errors followed by the listing error. */
  function PipelineErrors(reg: Registry, dec: Decoders): (errs: seq<string>)
    ensures Catalog(reg).Err? ==> errs == [Catalog(reg).error]
    ensures Catalog(reg).Ok? ==>
              var listing := ListImages(reg, Catalog(reg).value);
              var perRepo := ResolutionErrors(reg, dec, listing.items);
              && |errs| == |perRepo| + (if listing.failure.Some? then 1 else 0)
              && errs[..|perRepo|] == perRepo
              && (listing.failure.Some? ==> errs[|errs| - 1] == listing.failure.value)
  {
    match Catalog(reg)
    case Err(e) => [e]
    case Ok(repos) =>
      var listing := ListImages(reg, repos);
      ResolutionErrors(reg, dec, listing.items) + FailureText(listing.failure)
  }

  /** Every repository of the catalog was listed and every one of its tags resolved. */
  ghost predicate Complete(reg: Registry, dec: Decoders) {
    match Catalog(reg)
    case Err(_) => false
    case Ok(repos) =>
      var listing := ListImages(reg, repos);
      && |listing.items| == |repos|
      && forall ri :: ri in listing.items ==> |ResolveTags(reg, dec, ri.name, ri.tags).items| == |ri.tags|
  }

  /** One "danger" message per error, in order. */
  function Alerts(errors: seq<string>): (msgs: seq<Msg>)
    ensures |msgs| == |errors|
    ensures forall k :: 0 <= k < |errors| ==> msgs[k] == Msg(DANGER, errors[k])
  {
    if errors == [] then [] else [Msg(DANGER, errors[0])] + Alerts(errors[1..])
  }

  /** Every message the collector records is a "danger" message. */
  lemma AlertsAreDanger(errors: seq<string>)
    ensures forall m :: m in Alerts(errors) ==> m.level == DANGER
  {
  }

  /** Appending errors appends their messages. */
  lemma {:induction false} AlertsAppend(a: seq<string>, b: seq<string>)
    ensures Alerts(a + b) == Alerts(a) + Alerts(b)
  {
    if a != [] {
      assert (a + b)[1..] == a[1..] + b;
      AlertsAppend(a[1..], b);
    }
  }

  /** The messages of one more repository worker follow those of the earlier ones. */
  lemma AlertsExtend(reg: Registry, dec: Decoders, records: seq<RegistryImage>, n: nat)
    requires n < |records|
    ensures var failure := ResolveTags(reg, dec, records[n].name, records[n].tags).failure;
            Alerts(ResolutionErrors(reg, dec, records[..n + 1])) ==
              Alerts(ResolutionErrors(reg, dec, records[..n])) +
              if failure.Some? then [Msg(DANGER, failure.value)] else []
  {
    assert records[..n + 1][..n] == records[..n];
    AlertsAppend(ResolutionErrors(reg, dec, records[..n]),
                 FailureText(ResolveTags(reg, dec, records[n].name, records[n].tags).failure));
  }

  /** The listing worker's message, if any, follows those of the repository workers. */
  lemma ListingAlerts(reg: Registry, dec: Decoders, repos: seq<string>)
    requires Catalog(reg) == Ok(repos)
    ensures var listing := ListImages(reg, repos);
            Alerts(PipelineErrors(reg, dec)) ==
              Alerts(ResolutionErrors(reg, dec, listing.items)) +
              if listing.failure.Some? then [Msg(DANGER, listing.failure.value)] else []
  {
    var listing := ListImages(reg, repos);
    AlertsAppend(ResolutionErrors(reg, dec, listing.items), FailureText(listing.failure));
  }

  /** `image` is what `index` makes of the listed repository `ri`: its name, and its
      resolved tags ranked by `tagLimitSort`. */
  ghost predicate ImageOf(reg: Registry, dec: Decoders, ri: RegistryImage, image: TemplateImage) {
    && image.name == ri.name
    && RankingOf(dec.commitDate, ResolveTags(reg, dec, ri.name, ri.tags).items, image.tags)
  }

  /** `images` are what `index` makes of `records`, one for one and in order. */
  ghost predicate ImagesOf(reg: Registry, dec: Decoders, records: seq<RegistryImage>, images: seq<TemplateImage>) {
    && |images| == |records|
    && forall i :: 0 <= i < |records| ==> ImageOf(reg, dec, records[i], images[i])
  }

  lemma ImagesOfExtend(reg: Registry, dec: Decoders, records: seq<RegistryImage>, images: seq<TemplateImage>,
                       n: nat, image: TemplateImage)
    requires n < |records|
    requires ImagesOf(reg, dec, records[..n], images) && ImageOf(reg, dec, records[n], image)
    ensures ImagesOf(reg, dec, records[..n + 1], images + [image])
  {
    assert forall i :: 0 <= i < n ==> records[..n + 1][i] == records[..n][i] && (images + [image])[i] == images[i];
  }

  /** One per-repository worker of `index`: resolves the repository's tags and ranks
      what resolved, even when nothing did, and hands back its error, if any. */
  method CollectImage(reg: Registry, dec: Decoders, ri: RegistryImage)
    returns (image: TemplateImage, failure: Option<string>)
    ensures ImageOf(reg, dec, ri, image)
    ensures failure == ResolveTags(reg, dec, ri.name, ri.tags).failure
  {
    var resolved := ResolveTags(reg, dec, ri.name, ri.tags);
    var tags := TagLimitSort(dec.commitDate, resolved.items);
    image, failure := TemplateImage(ri.name, tags), resolved.failure;
  }

  /** The per-repository part of `index`: each listed repository yields one image and
      its worker's error, if any, one message. */
  method CollectImages(reg: Registry, dec: Decoders, records: seq<RegistryImage>)
    returns (images: seq<TemplateImage>, msgs: seq<Msg>)
    ensures ImagesOf(reg, dec, records, images)
    ensures msgs == Alerts(ResolutionErrors(reg, dec, records))
  {
    images, msgs := [], [];
    for i := 0 to |records|
      invariant ImagesOf(reg, dec, records[..i], images)
      invariant msgs == Alerts(ResolutionErrors(reg, dec, records[..i]))
    {
      var image, failure := CollectImage(reg, dec, records[i]);
      AlertsExtend(reg, dec, records, i);
      ImagesOfExtend(reg, dec, records, images, i, image);
      images := images + [image];
      if failure.Some? {
        msgs := msgs + [Msg(DANGER, failure.value)];
      }
    }
    assert records[..|records|] == records;
  }

  /** `index`: the page data. Images come in catalog order here; in the source they
      arrive in whatever order the per-repository workers finish. */
  method Index(registry: string, reg: Registry, dec: Decoders) returns (data: TemplateData)
    ensures data.registry == registry
    ensures data.messages == Alerts(PipelineErrors(reg, dec))
    ensures forall m :: m in data.messages ==> m.level == DANGER
    ensures Catalog(reg).Err? ==> data.images == [] && data.messages == [Msg(DANGER, Catalog(reg).error)]
    ensures Catalog(reg).Ok? ==>
              ImagesOf(reg, dec, ListImages(reg, Catalog(reg).value).items, data.images)
  {
    var images: seq<TemplateImage> := [];
    var msgs: seq<Msg> := [];
    match Catalog(reg) {
      case Err(e) =>
        msgs := [Msg(DANGER, e)];
      case Ok(repos) =>
        var listing := ListImages(reg, repos);
        images, msgs := CollectImages(reg, dec, listing.items);
        ListingAlerts(reg, dec, repos);
        if listing.failure.Some? {
          msgs := msgs + [Msg(DANGER, listing.failure.value)];
        }
    }
    data := TemplateData(registry, images, msgs);
    AlertsAreDanger(PipelineErrors(reg, dec));
  }

  /** The listing is determined by where the first tag list fails: it holds the tag
      lists before it and reports its error, or holds every tag list when none fails. */
  lemma {:induction false} ListingStopsAtFirstFailure(reg: Registry, names: seq<string>, k: nat)
    requires k <= |names|
    requires forall i :: 0 <= i < k ==> TagList(reg, names[i]).Ok?
    requires k < |names| ==> TagList(reg, names[k]).Err?
    ensures |ListImages(reg, names).items| == k
    ensures ListImages(reg, names).failure == if k < |names| then Some(TagList(reg, names[k]).error) else None
  {
    if k > 0 {
      assert TagList(reg, names[0]).Ok?;
      ListingStopsAtFirstFailure(reg, names[1..], k - 1);
    }
  }

  /** Resolution is determined likewise by where the first tag fails to resolve. */
  lemma {:induction false} ResolutionStopsAtFirstFailure(reg: Registry, dec: Decoders, repo: string, tags: seq<string>, k: nat)
    requires k <= |tags|
    requires forall i :: 0 <= i < k ==> Succeeds(reg.manifest(repo, tags[i])) && ManifestSafe(reg.manifest(repo, tags[i]))
    requires k < |tags| ==> !(Succeeds(reg.manifest(repo, tags[k])) && ManifestSafe(reg.manifest(repo, tags[k])))
    ensures |ResolveTags(reg, dec, repo, tags).items| == k
    ensures ResolveTags(reg, dec, repo, tags).failure == if k < |tags| then Some(ResolveTag(dec, tags[k], reg.manifest(repo, tags[k])).error) else None
  {
    if k > 0 {
      assert ResolveTag(dec, tags[0], reg.manifest(repo, tags[0])).Ok?;
      ResolutionStopsAtFirstFailure(reg, dec, repo, tags[1..], k - 1);
    }
  }

  /** A request records no message exactly when it is complete: no error is lost and
      none is invented. */
  lemma NoMessagesIffComplete(reg: Registry, dec: Decoders)
    ensures PipelineErrors(reg, dec) == [] <==> Complete(reg, dec)
  {
    match Catalog(reg)
    case Err(_) =>
    case Ok(repos) =>
      var listing := ListImages(reg, repos);
      ResolutionErrorsEmpty(reg, dec, listing.items);
  }

  lemma {:induction false} ResolutionErrorsEmpty(reg: Registry, dec: Decoders, records: seq<RegistryImage>)
    ensures ResolutionErrors(reg, dec, records) == [] <==>
              forall ri :: ri in records ==> |ResolveTags(reg, dec, ri.name, ri.tags).items| == |ri.tags|
  {
    if records != [] {
      var init := records[..|records| - 1];
      assert records == init + [records[|records| - 1]];
      ResolutionErrorsEmpty(reg, dec, init);
    }
  }

  /** Each listed repository's worker and the listing worker contribute at most one
      message each; a listing that fails does so in place of a repository, so there are
      never more messages than catalog entries. */
  lemma MessagesBounded(reg: Registry, dec: Decoders)
    requires Catalog(reg).Ok?
    ensures var listing := ListImages(reg, Catalog(reg).value);
            |PipelineErrors(reg, dec)| <= |listing.items| + (if listing.failure.Some? then 1 else 0) <= |Catalog(reg).value|
  {
  }
}
