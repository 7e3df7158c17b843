/** Values exchanged between the registry, the fetch pipeline and the page template
    of minihub (minihub.go:23-84). */
module Types {

  datatype Option<+T> = None | Some(value: T)

  /** Result of a registry call or a decode that yields a value: the value, or the
      text Go's error prints as (`fmt.Sprintf("%v", err)`). */
  datatype Fetch<+T> = Ok(value: T) | Err(error: string)

  /** Result of a step whose value the pipeline does not keep: an HTTP GET whose body
      is decoded next, or building a request. */
  datatype Outcome = Pass | Fail(error: string)

  /** The `config.Labels` keys of the image history that carry build provenance. */
  datatype Labels = Labels(
    commitDate: string,
    sha: string,
    ref: string,
    repo: string,
    message: string,
    image: string)

  datatype Config = Config(env: seq<string>, labels: Labels)

  /** `registryInfo`: the decoded `v1Compatibility` entry of a manifest's history. */
  datatype Info = Info(config: Config)

  /** Go's zero `registryInfo`, left in place when `v1Compatibility` does not decode. */
  const EMPTY_INFO: Info := Info(Config([], Labels("", "", "", "", "", "")))

  /** `templateTag`: one tag as handed to the page. */
  datatype TemplateTag = TemplateTag(name: string, info: Info, digest: string)

  /** `templateImage`: one repository with its ranked tags. */
  datatype TemplateImage = TemplateImage(name: string, tags: seq<TemplateTag>)

  /** `msg`: one user-visible message. */
  datatype Msg = Msg(level: string, message: string)

  /** `templateData`: everything the page is rendered from. */
  datatype TemplateData = TemplateData(registry: string, images: seq<TemplateImage>, messages: seq<Msg>)

  /** `registryImage`: a decoded `/v2/<name>/tags/list` body. */
  datatype RegistryImage = RegistryImage(name: string, tags: seq<string>)

  /** The part of a decoded manifest body the pipeline reads: its `History` list. */
  datatype Manifest = Manifest(history: seq<map<string, string>>)

  /** Response headers, as Go's `http.Header` (a map from name to values). */
  type Header = map<string, seq<string>>
}
