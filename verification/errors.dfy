/** The fatal errors the core throws. Every one of them aborts the run; none is caught. */
module Errors {

  datatype Error =
    | DuplicateClass(fullName: string)   // Tree.addClass on a fullName already present
    | NoValidator(fullName: string)      // ValidatorFactory has no mapping for a type
    | NullRestriction                    // RestrictionWriter asked to write a null restriction
    | MultipleDeclarations               // a type resolves to several class/interface declarations
  {
    /** The text of the `Error` the source throws. */
    function Message(): string {
      match this
      case DuplicateClass(n) =>
        "A class with the fully qualified name of '" + n
        + "' already exists in the tree! Either remove it or update the program accordingly!"
      case NoValidator(n) => "No validator for type " + n + "!"
      case NullRestriction => "Restriction to be written is null or undefined!"
      case MultipleDeclarations => "A class has multiple declarations! Rework the code to handle this case!"
    }
  }
}
