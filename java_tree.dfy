/**
 * The parts of OpenRewrite's typed Java syntax tree that the recipe looks at:
 * resolved method types (`JavaType.Method`), class declarations
 * (`J.ClassDeclaration`) and the nodes a `JavaIsoVisitor` stops at. Type
 * attribution may be missing on any node, which Java shows as `null` and the
 * model as `None`.
 */
module JavaTree {
  import opened Wrappers

  /** The modifier flags of `org.openrewrite.java.tree.Flag` that matter here. */
  datatype Flag = Public | Private | Protected | Static | Final | Abstract | Default

  /** `JavaType.FullyQualified`, reduced to its fully-qualified name. */
  datatype FullyQualified = FullyQualified(fullyQualifiedName: string)

  /** `JavaType.Method`: the declaring type, the simple name, the parameter
      types (which tell overloads apart) and the flags. */
  datatype MethodType = MethodType(
    declaringType: FullyQualified,
    name: string,
    parameterTypes: seq<string>,
    flags: set<Flag>)
  {
    /** `hasFlags(fs...)`: every one of the given flags is set. */
    predicate HasFlags(fs: set<Flag>)
    {
      fs <= flags
    }
  }

  /** `J.ClassDeclaration.Kind.Type`. */
  datatype ClassKind = Class | Enum | Interface | Annotation | Record | Value

  /** A class declaration: its kind and its simple name. */
  datatype ClassDecl = ClassDecl(kind: ClassKind, simpleName: string)

  /**
   * A node of a compilation unit, as the visitor sees it. A method
   * declaration's enclosing class is the nearest `ClassDeclaration`
   * above it; everything else the visitor only descends through is `Other`
   * (compilation units, blocks, lambdas, anonymous class bodies, ...).
   */
  datatype Tree =
    | ClassDeclaration(decl: ClassDecl, children: seq<Tree>)
    | MethodDeclaration(methodType: Option<MethodType>, children: seq<Tree>)
    | MethodInvocation(methodType: Option<MethodType>, children: seq<Tree>)
    | Other(children: seq<Tree>)
}
