/** Validation of the command-line options that drive the compositor: the
    spacing between images and the optional target height. */
module Options {
  import opened Results

  /** Unsigned and signed 32-bit integers, the ranges of the values the
      option parser produces. */
  type u32 = x: int | 0 <= x < 0x1_0000_0000
  type i32 = x: int | -0x8000_0000 <= x < 0x8000_0000

  /** Spacing used when no spacing option is given. */
  const DEFAULT_SPACING: u32 := 10
  /** Sentinel height meaning "no height option given, do not resize". */
  const DEFAULT_MAX_HEIGHT: i32 := -1

  /** An optional command-line value: absent, or present with the outcome of
      parsing its text as a number (`None` when the text does not parse). */
  datatype Flag<T> = Absent | Present(parsed: Option<T>)

  /** The validated configuration of one run. */
  datatype Config = Config(input: seq<string>, output: string, spacing: u32, maxHeight: i32)

  /** Why a configuration is rejected. */
  datatype ConfigError = InvalidSpacing | HeightNotPositive | InvalidHeight

  /** The run resizes the composed canvas exactly when the height is not
      the sentinel. */
  predicate ResizeRequested(config: Config) {
    config.maxHeight != DEFAULT_MAX_HEIGHT
  }

  /** Builds the configuration. The spacing defaults to 10 and must parse;
      it is checked first. A height, when given, must parse and be greater
      than 0; when none is given the height stays at the sentinel, so a
      resize is requested exactly when a height was given. */
  method GetConfig(input: seq<string>, output: string, spacing: Flag<u32>, height: Flag<i32>)
    returns (r: Result<Config, ConfigError>)
    ensures spacing == Present(None) ==> r == Failure(InvalidSpacing)
    ensures spacing != Present(None) && height == Present(None) ==> r == Failure(InvalidHeight)
    ensures spacing != Present(None) && height.Present? && height.parsed.Some? && height.parsed.value <= 0 ==>
              r == Failure(HeightNotPositive)
    ensures r.Success? <==>
              spacing != Present(None) &&
              (height.Absent? || (height.parsed.Some? && height.parsed.value > 0))
    ensures r.Success? ==>
              r.value.input == input && r.value.output == output &&
              r.value.spacing == (if spacing.Absent? then DEFAULT_SPACING else spacing.parsed.value)
    ensures r.Success? ==> (ResizeRequested(r.value) <==> height.Present?)
    ensures r.Success? && height.Present? ==> r.value.maxHeight == height.parsed.value > 0
  {
    var parsedSpacing := if spacing.Absent? then Some(DEFAULT_SPACING) else spacing.parsed;
    if parsedSpacing.None? {
      return Failure(InvalidSpacing);
    }

    var maxHeight := DEFAULT_MAX_HEIGHT;
    if height.Present? {
      match height.parsed {
        case Some(h) =>
          if h <= 0 {
            return Failure(HeightNotPositive);
          }
          maxHeight := h;
        case None =>
          return Failure(InvalidHeight);
      }
    }

    r := Success(Config(input, output, parsedSpacing.value, maxHeight));
  }
}
