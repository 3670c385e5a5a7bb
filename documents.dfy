/** The documents and options the soft-redirect module works with. */
module Documents {
  import opened Wrappers

  type DocId = string

  /**
   * A page or piece as the module sees it: its `_id`, `type`, `_url` and
   * `historicUrls`. A missing or empty `_url` (both falsy) is the empty string;
   * a missing `historicUrls` is the empty sequence.
   */
  datatype Doc = Doc(id: DocId, docType: string, url: string, historicUrls: seq<string>)

  /**
   * The module options: `enable` is false exactly when the option is set to
   * `false`; `statusCode` is the option as given, if it is.
   */
  datatype Config = Config(enable: bool, statusCode: Option<int>)

  /** `self.options.statusCode || 302`: a missing or zero status falls back to 302. */
  function RedirectStatus(config: Config): (status: int)
    ensures status != 0
    ensures config.statusCode.Some? && config.statusCode.value != 0 ==> status == config.statusCode.value
    ensures !(config.statusCode.Some? && config.statusCode.value != 0) ==> status == 302
  {
    if config.statusCode.Some? && config.statusCode.value != 0 then config.statusCode.value else 302
  }
}
