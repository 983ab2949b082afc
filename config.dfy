/**
 * The start-up configuration of main.py: three secrets read from the
 * environment. A variable that is not set reads as the empty string, so
 * "missing" and "empty" are the same case here.
 */
module Configuration {

  datatype Config = Config(openaiApiKey: string, playhtApiKey: string, playhtUserId: string)

  /** The outcome of `Config()`: the loaded values, or the `ValueError` it raises. */
  datatype LoadResult = Loaded(config: Config) | MissingVariables

  /** `Config.__init__`: refuse to start unless all three values are non-empty. */
  function LoadConfig(openaiApiKey: string, playhtApiKey: string, playhtUserId: string): (r: LoadResult)
    ensures r.MissingVariables? <==> (openaiApiKey == [] || playhtApiKey == [] || playhtUserId == [])
    ensures r.Loaded? ==> r.config == Config(openaiApiKey, playhtApiKey, playhtUserId)
  {
    if openaiApiKey != [] && playhtApiKey != [] && playhtUserId != [] then
      Loaded(Config(openaiApiKey, playhtApiKey, playhtUserId))
    else
      MissingVariables
  }
}
