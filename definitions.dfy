/** The per-repository configuration record. */
module Definitions {
  import opened Wrappers

  /** One entry of the configuration's `repositories` list. `diff` is the
      optional nested object; each of its values is a revision string or JSON
      null (None). */
  datatype DefinitionData = DefinitionData(
    name: string,
    url: string,
    active: bool,
    diff: Option<map<string, Option<string>>>)

  /** The record built from a configuration entry. */
  datatype RepositoryDefinition = RepositoryDefinition(
    name: string,
    url: string,
    active: bool,
    start: Option<string>,
    end: Option<string>)

  /** `dict.get(key)`: None for a missing key as for a null value. */
  function Get(m: map<string, Option<string>>, key: string): Option<string>
  {
    if key in m then m[key] else None
  }

  /** `RepositoryDefinition.__init__`. Without a diff object both bounds are
      absent; with one, each bound is the value at its key, absent when the key
      is missing. */
  function FromData(data: DefinitionData): (d: RepositoryDefinition)
    ensures d.name == data.name && d.url == data.url && d.active == data.active
    ensures data.diff.None? ==> d.start == None && d.end == None
    ensures data.diff.Some? && "start" !in data.diff.value ==> d.start == None
    ensures data.diff.Some? && "end" !in data.diff.value ==> d.end == None
    ensures data.diff.Some? && "start" in data.diff.value ==> d.start == data.diff.value["start"]
    ensures data.diff.Some? && "end" in data.diff.value ==> d.end == data.diff.value["end"]
  {
    var start := if data.diff.Some? then Get(data.diff.value, "start") else None;
    var end := if data.diff.Some? then Get(data.diff.value, "end") else None;
    RepositoryDefinition(data.name, data.url, data.active, start, end)
  }

  /** A configuration entry that carries exactly the bounds of `d`. */
  function ToData(d: RepositoryDefinition): (data: DefinitionData)
    ensures data.diff.Some? <==> d.start.Some? || d.end.Some?
  {
    if d.start.None? && d.end.None? then DefinitionData(d.name, d.url, d.active, None)
    else DefinitionData(d.name, d.url, d.active, Some(map["start" := d.start, "end" := d.end]))
  }

  /** Every definition is produced by some configuration entry, so FromData
      loses nothing of what the core reads. */
  lemma FromDataToData(d: RepositoryDefinition)
    ensures FromData(ToData(d)) == d
  {
  }

  /** Keys of the diff object other than `start` and `end` are ignored. */
  lemma FromDataReadsOnlyBounds(a: DefinitionData, b: DefinitionData)
    requires a.name == b.name && a.url == b.url && a.active == b.active
    requires a.diff.Some? <==> b.diff.Some?
    requires a.diff.Some? ==>
      Get(a.diff.value, "start") == Get(b.diff.value, "start") &&
      Get(a.diff.value, "end") == Get(b.diff.value, "end")
    ensures FromData(a) == FromData(b)
  {
  }
}
