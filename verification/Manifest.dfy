/** The parts a built manifest and a pack config share (src/domain/manifest.rs). */
module Manifest {
  import opened Base
  import opened Sides

  datatype LoaderSpec = LoaderSpec(name: string, version: string)

  datatype AuthSpec = AuthSpec(kind: string, serverId: Option<string>)

  datatype Requirement = Requirement(filename: string, versionRange: Option<string>, optional: bool)

  datatype Display = Display(
    name: Option<string>,
    description: Option<string>,
    category: Option<string>,
    incompatibleWith: seq<string>,
    license: Option<string>,
    url: Option<string>,
    iconUrl: Option<string>,
    requirements: seq<Requirement>,
    presence: Option<PresenceClass>)

  const DEFAULT_DISPLAY := Display(None, None, None, [], None, None, None, [], None)

  function RequirementsOf(display: Option<Display>): seq<Requirement>
  {
    if display.Some? then display.value.requirements else []
  }

  datatype Source = Modrinth(projectId: string, versionId: string) | SmrtCache(url: string) | SmrtStatic(url: string)

  datatype ModEntry = ModEntry(
    filename: string,
    sha1: string,
    sizeBytes: nat,
    required: bool,
    defaultEnabled: bool,
    source: Source,
    display: Option<Display>,
    slug: Option<string>)

  datatype AssetEntry = AssetEntry(
    dest: string,
    sha1: string,
    sizeBytes: nat,
    required: bool,
    source: Source,
    display: Option<Display>)
}
