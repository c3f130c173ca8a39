/** Failure-compatible wrappers and the gRPC status replies of the patient services. */
module Outcomes {

  datatype Option<+T> = None | Some(value: T) {
    predicate IsFailure() { None? }

    function PropagateFailure<U>(): Option<U>
      requires None?
    {
      None
    }

    function Extract(): T
      requires Some?
    {
      value
    }
  }

  /** The two tonic::Status kinds the create handlers return. */
  datatype Status = InvalidArgument(message: string) | Internal(message: string)

  datatype Result<+T> = Ok(value: T) | Err(status: Status)

  const NamesRequired: string := "first_name and last_name are required"
  const StorageDirFailed: string := "failed to create storage directory"
  const PatientDirFailed: string := "failed to create patient directory"
  const SerializeFailed: string := "failed to serialize patient"
  const WriteFailed: string := "failed to write patient file"
}
