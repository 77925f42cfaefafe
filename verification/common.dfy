/** Failure-compatible results shared by every component: the .NET exceptions the
    core can raise become `Failure` values carrying one of the `Error` cases. */
module Common {

  /** Identifiers of loaded assemblies: `Assembly.LoadFrom` yields the same id for
      two files exactly when the runtime hands back the same `Assembly` object. */
  type AssemblyId = nat

  /** Identifiers of runtime types. */
  type TypeId = nat

  datatype Error =
    | ArgumentNull(parameter: string)          // ArgumentNullException from a null check
    | ArgumentNotGeneric                       // ArgumentException: the type is not generic
    | DirectoryNotFound(path: string)          // Directory.GetFiles on a missing directory
    | LoadFailed(file: string)                 // Assembly.LoadFrom on a file that is no assembly
    | TypeLoadFailed(assembly: AssemblyId)     // Assembly.GetTypes throwing

  datatype Result<+T> = Success(value: T) | Failure(error: Error)

  datatype Option<+T> = None | Some(value: T)
}
