/** The parsed configuration: the ordered list of target files and the named
    variants, each with its replacement table in the order the JSON object
    lists it. A missing "files" or "variants" key is the empty sequence. */
module Config {
  import opened Wrappers
  import Substitution

  datatype Variant = Variant(name: string, replacements: seq<Substitution.Pair>)

  datatype Configuration = Configuration(files: seq<string>, variants: seq<Variant>)

  /** The action named on the command line, after lower-casing. */
  datatype Action = Replace | Revert | Summarize | Invalid

  /** `v["name"] == variant_name`; a variant name that was not given (None)
      matches no variant. */
  predicate NameMatches(v: Variant, name: Option<string>)
  {
    name == Some(v.name)
  }

  /** The lookup of the replace action: the first variant whose name matches
      exactly, or None when there is none. */
  function FindVariant(variants: seq<Variant>, name: Option<string>): (r: Option<Variant>)
    ensures r.None? <==> forall i :: 0 <= i < |variants| ==> !NameMatches(variants[i], name)
    ensures r.Some? ==> exists i :: 0 <= i < |variants| && variants[i] == r.value && NameMatches(r.value, name)
                                 && forall j :: 0 <= j < i ==> !NameMatches(variants[j], name)
    decreases |variants|
  {
    if variants == [] then None
    else if NameMatches(variants[0], name) then Some(variants[0])
    else
      var r := FindVariant(variants[1..], name);
      assert forall i :: 1 <= i < |variants| ==> variants[i] == variants[1..][i - 1];
      r
  }
}
