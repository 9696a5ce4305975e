/**
 * The task records the scripts consume and the attributes a digraph node
 * carries.
 */
module Tasks {
  import opened Wrappers

  /**
   * One value of a taskgraph file: its `label` (taskLabel), its `dependencies` object
   * (dependency name to upstream task id, in key order), its
   * `attributes.kind` and its `task.metadata.name`.
   */
  datatype TaskRecord = TaskRecord(
    taskLabel: string,
    dependencies: seq<(string, string)>,
    kind: string,
    name: string)

  /**
   * One element of a task-group listing: `status.taskId`,
   * `task.dependencies` (a list of task ids) and `task.metadata.name`.
   */
  datatype GroupTask = GroupTask(taskId: string, dependencies: seq<string>, name: string)

  /** The attributes `add_node(id, **record)` spreads onto a node. */
  datatype Payload = FileTask(record: TaskRecord) | ListedTask(task: GroupTask)

  /** `attributes["task"]["metadata"]["name"]` of either kind of payload. */
  function TaskName(p: Payload): string
  {
    match p
    case FileTask(r) => r.name
    case ListedTask(t) => t.name
  }

  /**
   * The attribute dictionary of a digraph node: the spread record, if the
   * node was ever added with one, and the `layer` written by the layout.
   */
  datatype NodeData = NodeData(payload: Option<Payload>, layer: Option<nat>)

  /** The attributes of a node that `add_edge` created: none. */
  const Bare := NodeData(None, None)

  /** A taskgraph file: task id to record, in key order. */
  type Taskgraph = seq<(string, TaskRecord)>

  /** The keys of a JSON object (a Python dict) are distinct. */
  predicate DistinctKeys<V>(entries: seq<(string, V)>)
  {
    forall i, j :: 0 <= i < j < |entries| ==> entries[i].0 != entries[j].0
  }

  /** A layout position, `pos[node]`; its computation is not modelled. */
  datatype Position = Position(x: real, y: real)
}
