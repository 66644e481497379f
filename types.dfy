/**
 * The board's record graph: a Project holds ordered Columns, a Column holds
 * ordered Tasks, and each Column and Task points back to its owner through
 * projectId / columnId. The string-literal unions of the TypeScript records
 * become enumerations, each with its wire name and a parser for it.
 */
module Types {

  datatype Option<+T> = None | Some(value: T)

  datatype Priority = Low | Medium | High

  datatype Status = Todo | InProgress | Done

  datatype AttachmentType = Image | File | Link

  datatype Tag = Tag(id: string, name: string, color: string)

  /** `kind` is the record's `type` field. `size` is optional. */
  datatype Attachment = Attachment(
    id: string,
    name: string,
    url: string,
    kind: AttachmentType,
    uploadedAt: string,
    size: Option<int>)

  datatype Comment = Comment(
    id: string,
    content: string,
    author: string,
    createdAt: string,
    updatedAt: Option<string>,
    attachments: seq<Attachment>)

  datatype Task = Task(
    id: string,
    title: string,
    description: string,
    priority: Priority,
    status: Status,
    dueDate: Option<string>,
    tags: seq<Tag>,
    attachments: seq<Attachment>,
    comments: seq<Comment>,
    columnId: string,
    projectId: string,
    createdAt: string,
    updatedAt: string,
    assignee: Option<string>,
    reporter: string,
    order: int)

  datatype Column = Column(
    id: string,
    title: string,
    tasks: seq<Task>,
    projectId: string,
    order: int)

  datatype Project = Project(
    id: string,
    name: string,
    description: Option<string>,
    columns: seq<Column>,
    createdAt: string,
    updatedAt: string)

  // The string each enumeration value stands for in the TypeScript records.

  function PriorityName(p: Priority): string {
    match p
    case Low => "low"
    case Medium => "medium"
    case High => "high"
  }

  function ParsePriority(s: string): (r: Option<Priority>)
    ensures r.Some? <==> s == "low" || s == "medium" || s == "high"
  {
    if s == "low" then Some(Low)
    else if s == "medium" then Some(Medium)
    else if s == "high" then Some(High)
    else None
  }

  function StatusName(st: Status): string {
    match st
    case Todo => "todo"
    case InProgress => "in_progress"
    case Done => "done"
  }

  function ParseStatus(s: string): (r: Option<Status>)
    ensures r.Some? <==> s == "todo" || s == "in_progress" || s == "done"
  {
    if s == "todo" then Some(Todo)
    else if s == "in_progress" then Some(InProgress)
    else if s == "done" then Some(Done)
    else None
  }

  function AttachmentTypeName(t: AttachmentType): string {
    match t
    case Image => "image"
    case File => "file"
    case Link => "link"
  }

  function ParseAttachmentType(s: string): (r: Option<AttachmentType>)
    ensures r.Some? <==> s == "image" || s == "file" || s == "link"
  {
    if s == "image" then Some(Image)
    else if s == "file" then Some(File)
    else if s == "link" then Some(Link)
    else None
  }

  /** A priority is exactly one of the three names, and the names round-trip. */
  lemma PriorityRoundTrip(p: Priority, s: string)
    ensures ParsePriority(PriorityName(p)) == Some(p)
    ensures ParsePriority(s).Some? ==> PriorityName(ParsePriority(s).value) == s
  {
    match p
    case Low =>
    case Medium =>
    case High =>
  }

  /** A status is exactly one of the three names, and the names round-trip. */
  lemma StatusRoundTrip(st: Status, s: string)
    ensures ParseStatus(StatusName(st)) == Some(st)
    ensures ParseStatus(s).Some? ==> StatusName(ParseStatus(s).value) == s
  {
    match st
    case Todo =>
    case InProgress =>
    case Done =>
  }

  /** An attachment type is exactly one of the three names, and the names round-trip. */
  lemma AttachmentTypeRoundTrip(t: AttachmentType, s: string)
    ensures ParseAttachmentType(AttachmentTypeName(t)) == Some(t)
    ensures ParseAttachmentType(s).Some? ==> AttachmentTypeName(ParseAttachmentType(s).value) == s
  {
    match t
    case Image =>
    case File =>
    case Link =>
  }
}
