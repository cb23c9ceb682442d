/** Types shared by the whole model: task records as the client and the
    tasks table see them, and the failures the operations can report. */
module Common {

  /** Convex document ids are opaque; the model draws them from a counter. */
  type TaskId = nat

  datatype Option<T> = None | Some(value: T)

  /** Why an operation threw. */
  datatype Fault =
    | NotFound            // patch or delete of an id that is not in the table
    | ServiceFailure      // a vendor call (Cohere, OpenAI) rejected
    | MalformedJson       // JSON.parse threw on the estimate reply
    | InvalidEstimate     // the estimate failed the truthiness check
    | NoModerationResult  // results[0] was undefined

  datatype Result<T> = Ok(value: T) | Err(fault: Fault)

  /** The fields a client hands over when it creates a task (src/data.ts). */
  datatype ClientTask = ClientTask(
    title: string,
    description: string,
    requester: string,
    completed: bool,
    location: string,
    timeEstimate: int,
    sizeEstimate: string)

  /** A stored task: a ClientTask plus its id and its optional answer. */
  datatype Task = Task(
    id: TaskId,
    title: string,
    description: string,
    requester: string,
    completed: bool,
    location: string,
    timeEstimate: int,
    sizeEstimate: string,
    answer: Option<string>)
}
