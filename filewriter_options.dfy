/**
 * The guarded option closures of the file writer (filewriter/options.go): each
 * one sets its own field of the options, and only for a non-zero argument.
 */
module FileWriterOptions {

  /** options: the output path and the number of days to keep. */
  class Options {
    var output: string
    var maxrolls: int

    constructor(output: string, maxrolls: int)
      ensures this.output == output && this.maxrolls == maxrolls
    {
      this.output := output;
      this.maxrolls := maxrolls;
    }

    /** Path(file) applied: a non-empty path replaces the output; "" changes nothing. */
    method Path(file: string)
      modifies this
      ensures file != "" ==> output == file
      ensures file == "" ==> output == old(output)
      ensures maxrolls == old(maxrolls)
    {
      if |file| != 0 {
        output := file;
      }
    }

    /** MaxRolls(days) applied: any non-zero count, negative ones included, replaces
        the count; 0 changes nothing. */
    method MaxRolls(days: int)
      modifies this
      ensures days != 0 ==> maxrolls == days
      ensures days == 0 ==> maxrolls == old(maxrolls)
      ensures output == old(output)
    {
      if days != 0 {
        maxrolls := days;
      }
    }
  }
}
