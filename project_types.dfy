/** The project record the projects page shows (src/types/Project.ts). */
module ProjectTypes {
  import opened Nullable

  /** A project; `subheader`, `createdAt` and `updatedAt` are optional in the record type. */
  datatype Project = Project(
    id: string,
    title: string,
    subheader: Option<string>,
    date: string,
    tags: seq<string>,
    externalUrl: string,
    createdAt: Option<string>,
    updatedAt: Option<string>)
}
