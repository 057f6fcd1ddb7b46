/** The content-addressed store the tree code writes to (src/odb/memory.rs). */
module Odb {
  import opened Base
  import PackFormat

  type Id = Bytes
  type Objects = map<Id, PackFormat.Obj>

  /** An object already there stays as it is. */
  function Put(env: PackFormat.Env, store: Objects, o: PackFormat.Obj): (r: Objects)
  { if env.hash(o) in store then store else store[env.hash(o) := o] }

  class Memory {
    const env: PackFormat.Env
    var objects: Objects

    constructor (env: PackFormat.Env)
      ensures this.env == env && objects == map[]
    {
      this.env := env;
      objects := map[];
    }

    method Write(o: PackFormat.Obj) returns (id: Id)
      modifies this
      ensures id == env.hash(o) && objects == Put(env, old(objects), o)
    {
      id := env.hash(o);
      if id !in objects { objects := objects[id := o]; }
    }
  }
}
