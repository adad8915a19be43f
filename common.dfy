/** Small wrapper types shared by the correction modules. */
module Common {

  /** An atom that a residue may or may not have. */
  datatype Option<T> = None | Some(value: T)

  /** The outcome of a step that the source may not survive: `Fault` stands
      for an out-of-range vector access (undefined behaviour) or a thrown
      std::out_of_range. */
  datatype Result<T> = Ok(value: T) | Fault
}
