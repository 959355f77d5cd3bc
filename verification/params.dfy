/**
  The records shared by the command-line source and the population engine:
  a declared parameter and a parsed value aimed at one.
 */
module Params {
  import opened Basics

  /**
    A declared configuration parameter. `default` is the rendered default
    value shown on the help page, `None` when the target holds its type's
    zero value; the write target itself lives outside this record.
   */
  datatype Param = Param(
    name: string,
    usage: string,
    required: bool,
    isBool: bool,
    isString: bool,
    default: Option<string>)

  /**
    A value parsed from some source, aimed at the parameter named `param.name`
    in the scope at `path`. `value` is raw JSON text, not yet decoded.
   */
  datatype ParamValue = ParamValue(param: Param, path: seq<string>, value: string)

  /**
    A parameter as the population engine sees it: the parameter together
    with the path of the scope it was declared in. `(path, param.name)` is
    its identity.
   */
  datatype Decl = Decl(path: seq<string>, param: Param)
}
