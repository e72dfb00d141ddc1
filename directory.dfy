/** The `Directory` record: a name and a size in bytes, both fixed at construction. */
module DirectoryRecord {

  /**
   * `new Directory(name, size)`. Both Java fields are `final` and the class has no
   * setters, so a value type models it: a record never changes once built.
   */
  datatype Directory = Directory(name: string, size: int)
  {
    /** `getName()` */
    function GetName(): (r: string)
    {
      name
    }

    /** `getSize()` */
    function GetSize(): (r: int)
    {
      size
    }
  }

  /** The getters return what was passed to the constructor. */
  lemma GettersReturnConstructorArguments(name: string, size: int)
    ensures Directory(name, size).GetName() == name
    ensures Directory(name, size).GetSize() == size
  {
  }

  /** A record is determined by what its getters return. */
  lemma GettersDetermineRecord(d: Directory, e: Directory)
    ensures d == e <==> d.GetName() == e.GetName() && d.GetSize() == e.GetSize()
  {
  }
}
