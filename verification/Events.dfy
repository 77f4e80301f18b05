// Data shared by the collectors and the backend.
module Events {

  datatype Option<+T> = None | Some(value: T)

  type Byte = b: int | 0 <= b < 256

  // The canonical text of a UUID.
  type EventId = string

  datatype Kind = Snapshot | Build | Run

  // The columns that are particular to one kind of event.
  datatype Detail =
    | SnapshotDetail(relativePath: string, fileSize: int)
    | BuildDetail(exitCode: int, cmdline: string, cwd: string, binaryPath: string, targetPath: string)
    | RunDetail(exitCode: int, cmdline: string, cwd: string, targetPath: string, processType: string)

  // What a collector writes into its spool, without the event id, which is the key.
  datatype Payload = Payload(
    assignmentId: int,
    studentKey: string,
    classDiv: string,
    hwName: string,
    occurredAt: int,
    detail: Detail)

  // One entry of a posted batch: the payload with the course id resolved for this attempt.
  datatype Values = Values(eventId: EventId, courseId: int, payload: Payload)
  datatype Item = Item(kind: Kind, values: Values)
}
