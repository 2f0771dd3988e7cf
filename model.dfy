/**
  The values the parser produces (src/main/kotlin/domain/model/Component.kt and
  the `KoinModule(name, components)` record) and the ways a parse can fail.
 */
module Model {

  /**
    A registered component. Every variant carries the produced class's `name` and
    its constructor `dependencies`; only `Scope` carries the scope's `typeName`.
   */
  datatype Component =
    | Singleton(name: string, dependencies: seq<string>)
    | ViewModel(name: string, dependencies: seq<string>)
    | Factory(name: string, dependencies: seq<string>)
    | Scope(name: string, dependencies: seq<string>, typeName: string)

  /** One parsed `val <name> = module { ... }` declaration. */
  datatype KoinModule = KoinModule(name: string, components: seq<Component>)

  /**
    What stops a parse. The Kotlin code raises these as exceptions: a failed `!!`,
    an index past the end of a list, a negative substring bound, `error(...)`.
   */
  datatype Failure =
    | NoModuleFound                     // the module anchor regex found nothing
    | ModuleNameMissing                 // the anchor text has fewer than two space-separated tokens
    | ComponentWithoutCall              // a block body has no `(`
    | UnknownComponentKind(kind: string) // a keyword other than single, viewModel, factory
    | MissingConstructorDeclaration     // the class text has no `class <Name> (...)`
    | UnterminatedParameterList         // a `(` comes before the first `)` of the parameter list

  datatype Result<T> = Ok(value: T) | Err(failure: Failure)

  /** A result together with the class names the injected collaborator was asked for, in order. */
  datatype Outcome<T> = Outcome(result: Result<T>, queries: seq<string>)

  /** Equality of components is structural: same variant, same fields. */
  lemma ComponentEquality(a: Component, b: Component)
    ensures a == b <==>
      a.name == b.name && a.dependencies == b.dependencies &&
      (a.Singleton? <==> b.Singleton?) && (a.ViewModel? <==> b.ViewModel?) &&
      (a.Factory? <==> b.Factory?) && (a.Scope? <==> b.Scope?) &&
      (a.Scope? ==> a.typeName == b.typeName)
  {
  }
}
