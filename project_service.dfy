/**
 * The project pipeline of src/services/projectService.ts: defaulting a
 * fetched `projects` row into a `Project`, and the error discipline of the
 * two fetchers. The query itself is an input.
 */
module ProjectService {
  import opened Nullable
  import opened Query
  import opened ProjectTypes

  /** A fetched row of `projects`, every column possibly null. */
  datatype DbProject = DbProject(
    id: string,
    title: Option<string>,
    subheader: Option<string>,
    date: Option<string>,
    tags: Option<seq<string>>,
    externalUrl: Option<string>,
    createdAt: Option<string>,
    updatedAt: Option<string>)

  /** The title a project gets when its row has none. */
  const UntitledProject := "Untitled Project"

  /**
   * `transformDatabaseProject`: the text columns fall back to '' (the title
   * to "Untitled Project") when null or empty, `tags` to [] when null; `id`
   * and the timestamps are copied as they are.
   */
  function TransformDatabaseProject(row: DbProject): (p: Project)
    ensures p.title != ""
    ensures p.subheader.Some?
    ensures p.id == row.id && p.createdAt == row.createdAt && p.updatedAt == row.updatedAt
  {
    Project(
      id := row.id,
      title := OrElse(row.title, UntitledProject),
      subheader := Some(OrElse(row.subheader, "")),
      date := OrElse(row.date, ""),
      tags := row.tags.GetOr([]),
      externalUrl := OrElse(row.externalUrl, ""),
      createdAt := row.createdAt,
      updatedAt := row.updatedAt)
  }

  /** Present, non-empty values are kept; absent or empty ones get their default. */
  lemma TransformProjectDefaults(row: DbProject)
    ensures var p := TransformDatabaseProject(row);
      && (p.title == UntitledProject <==> !Truthy(row.title) || row.title.value == UntitledProject)
      && (Truthy(row.title) ==> p.title == row.title.value)
      && (Truthy(row.subheader) ==> p.subheader == row.subheader)
      && (!Truthy(row.subheader) ==> p.subheader == Some(""))
      && (Truthy(row.date) ==> p.date == row.date.value)
      && (!Truthy(row.date) ==> p.date == "")
      && (row.tags.Some? ==> p.tags == row.tags.value)
      && (row.tags.None? ==> p.tags == [])
      && (Truthy(row.externalUrl) ==> p.externalUrl == row.externalUrl.value)
      && (!Truthy(row.externalUrl) ==> p.externalUrl == "")
  {
  }

  /** A project seen as a row again, every field present. */
  function AsRow(p: Project): DbProject {
    DbProject(p.id, Some(p.title), p.subheader, Some(p.date), Some(p.tags), Some(p.externalUrl), p.createdAt, p.updatedAt)
  }

  /** Transforming an already transformed project changes nothing. */
  lemma TransformProjectIdempotent(row: DbProject)
    ensures TransformDatabaseProject(AsRow(TransformDatabaseProject(row))) == TransformDatabaseProject(row)
  {
    var p := TransformDatabaseProject(row);
    assert OrElse(Some(p.title), UntitledProject) == p.title;
    assert p.subheader == Some(p.subheader.value);
  }

  function TransformAll(rows: seq<DbProject>): (projects: seq<Project>)
    ensures |projects| == |rows|
    ensures forall i :: 0 <= i < |rows| ==> projects[i] == TransformDatabaseProject(rows[i])
  {
    if rows == [] then [] else [TransformDatabaseProject(rows[0])] + TransformAll(rows[1..])
  }

  /** `getProjects`: every fetched row transformed, same length, same order; an error gives []. */
  function GetProjects(response: Response<seq<DbProject>>): (projects: seq<Project>)
    ensures response.Failed() || response.data.None? ==> projects == []
    ensures !response.Failed() && response.data.Some? ==>
      |projects| == |response.data.value| &&
      forall i :: 0 <= i < |projects| ==> projects[i] == TransformDatabaseProject(response.data.value[i])
  {
    if response.Failed() then []
    else match response.data
      case None => []
      case Some(rows) => TransformAll(rows)
  }

  /** `getProjectById`: the transformed row, or null on an error or when nothing matched. */
  function GetProjectById(response: Response<DbProject>): (project: Option<Project>)
    ensures project.Some? <==> !response.Failed() && response.data.Some?
    ensures project.Some? ==> project.value == TransformDatabaseProject(response.data.value)
  {
    if response.Failed() then None
    else match response.data
      case None => None
      case Some(row) => Some(TransformDatabaseProject(row))
  }
}
