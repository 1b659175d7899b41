/**
 * How Python binds the keyword arguments of a call to
 * `Command.run(self, command, input_file, output_file=None, **kwargs)` and what `run`
 * forwards to the CDO binding: `getattr(self.CDO, command)(input=input_file,
 * output=output_file, **kwargs)`. The CDO binding itself, which starts the `cdo`
 * process, is not part of this model; an invocation records what it would receive.
 */
module PrefectCdo {

  /** A keyword-argument value as the `*_files` tasks pass them: a `str`, a `bool` flag or `None`. */
  datatype Value = Str(s: string) | Flag(b: bool) | NoneValue

  type Keywords = map<string, Value>

  /** The two `TypeError`s argument binding can raise here. */
  datatype CallError = MissingArgument(name: string) | MultipleValues(names: set<string>)

  datatype Result<T> = Ok(value: T) | Err(error: CallError)

  /** The call the CDO binding receives: operator name, `input=`, `output=` and the other options. */
  datatype CdoInvocation = CdoInvocation(operator: string, input: Value, output: Value, options: Keywords)

  /** `f(k1=v1, ..., **extra)`: the explicit keywords and the unpacked ones must not overlap. */
  function MergeKeywords(explicit: Keywords, extra: Keywords): (r: Result<Keywords>)
    ensures r.Ok? <==> explicit.Keys !! extra.Keys
    ensures r.Ok? ==> r.value.Keys == explicit.Keys + extra.Keys
    ensures r.Ok? ==> forall k :: k in explicit ==> r.value[k] == explicit[k]
    ensures r.Ok? ==> forall k :: k in extra ==> r.value[k] == extra[k]
    ensures r.Err? ==> r.error == MultipleValues(explicit.Keys * extra.Keys)
  {
    if explicit.Keys !! extra.Keys then Ok(explicit + extra)
    else Err(MultipleValues(explicit.Keys * extra.Keys))
  }

  /**
   * `cdo.run(command, **keywords)` with the command passed positionally: `self` and `command`
   * are already bound, `input_file` is required, `output_file` defaults to `None`, and every
   * other keyword lands in `**kwargs`, which is then forwarded beside `input=` and `output=`.
   */
  function Run(command: string, keywords: Keywords): (r: Result<CdoInvocation>)
    ensures r.Ok? <==> "self" !in keywords && "command" !in keywords && "input_file" in keywords
                       && "input" !in keywords && "output" !in keywords
    ensures r.Ok? ==> r.value.operator == command && r.value.input == keywords["input_file"]
    ensures r.Ok? ==> r.value.output == if "output_file" in keywords then keywords["output_file"] else NoneValue
    ensures r.Ok? ==> r.value.options == keywords - {"input_file", "output_file"}
    ensures "self" !in keywords && "command" !in keywords && "input_file" !in keywords
            ==> r == Err(MissingArgument("input_file"))
  {
    if "self" in keywords || "command" in keywords then
      Err(MultipleValues({"self", "command"} * keywords.Keys))
    else if "input_file" !in keywords then
      Err(MissingArgument("input_file"))
    else
      var output := if "output_file" in keywords then keywords["output_file"] else NoneValue;
      var options := keywords - {"input_file", "output_file"};
      assert ("input" in options <==> "input" in keywords) && ("output" in options <==> "output" in keywords);
      match MergeKeywords(map["input" := keywords["input_file"], "output" := output], options)
      case Ok(_) => Ok(CdoInvocation(command, keywords["input_file"], output, options))
      case Err(e) => Err(e)
  }
}
