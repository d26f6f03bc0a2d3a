/**
 * The vocabulary of the component registry: component classes, component
 * instances, the static facts the registry reads about a class (its declared
 * dependencies and the capability interfaces it implements), the errors the
 * registry raises and the calls it makes into components and the host.
 */
module Types {

  /** A component class. Classes are compared by identity only. */
  type ClassId = nat

  /**
   * A live component object. `serial` tells apart two objects of the same
   * class (a class initialised, torn down and initialised again), so datatype
   * equality here is object identity in the registry.
   */
  datatype Instance = Instance(cls: ClassId, serial: nat)

  datatype Option<T> = None | Some(value: T)

  /**
   * What the registry can learn about component classes without running them.
   * `deps` stands for the `DependsOn` annotations, in declaration order; the
   * four capability flags stand for `Initializable`, `Reloadable`, `Unloadable`
   * and `Listener`. The last three fields are the outcomes of code the
   * registry calls but cannot see: whether reflective construction and plugin
   * wiring succeed, whether `init()` returns normally and whether `unload()`
   * returns normally.
   */
  datatype Catalog = Catalog(
    classes: set<ClassId>,
    deps: ClassId -> seq<ClassId>,
    initializable: ClassId -> bool,
    reloadable: ClassId -> bool,
    unloadable: ClassId -> bool,
    listener: ClassId -> bool,
    constructs: ClassId -> bool,
    initSucceeds: ClassId -> bool,
    unloadSucceeds: ClassId -> bool)

  /** Every dependency of a known class is itself a known class. */
  ghost predicate Closed(cat: Catalog)
  {
    forall c, d | c in cat.classes && d in cat.deps(c) :: d in cat.classes
  }

  /**
   * Constructing `c` succeeds: reflective construction and plugin wiring
   * return normally, and so does `init()` when the class is `Initializable`.
   */
  predicate Constructible(cat: Catalog, c: ClassId)
  {
    cat.constructs(c) && (cat.initializable(c) ==> cat.initSucceeds(c))
  }

  /** The exceptions the registry throws, each naming the component involved. */
  datatype Error =
    | AlreadyInitialised(cls: ClassId)
    | CircularInitialisation(cls: ClassId)
    | ConstructionFailed(cls: ClassId)
    | NotInitialised(cls: ClassId)
    | AlreadyBound
    | NotBound
    | DependentsActive(cls: ClassId)
    | DependentStillActive(cls: ClassId, dependent: ClassId)
    | CircularDeinitialisation(instance: Instance)
    | UnloadFailed(instance: Instance)
    | ComponentRelated(instance: Instance, cause: Error)

  /** Normal completion, or the exception a registry method ends with. */
  datatype Outcome = Ok | Fail(error: Error)

  /** A value, or the exception thrown instead of returning one. */
  datatype Result<T> = Success(value: T) | Failure(error: Error)

  /**
   * Calls the registry makes into components or into the host's event system.
   * `asCandidate` tells which call site reloaded the target: the candidate
   * loop itself, or the pass over a candidate's dependencies.
   */
  datatype Event =
    | Subscribed(target: Instance)
    | Unsubscribed(target: Instance)
    | Unloaded(target: Instance)
    | Reloaded(target: Instance, asCandidate: bool)

  /** The three answers an exception handler may give. */
  datatype Resolution = Continue | Stop | Rethrow

  /** An exception handler for batch teardown; `NoHandler` is a null handler. */
  datatype Handler = NoHandler | Handler(decide: Error -> Resolution)
}
