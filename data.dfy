/** The edit surface of a packet: Data (a named, mutable field value), DataBlock (an
    ordered list of Data looked up by first name match) and DataBlockArray (a list of
    blocks grown by `create`). Data objects are shared, not copied: a block that took
    another block's Data by `putAll` sees every later `setValue` on them. */
module DataBlocks {
  import opened Base
  import opened Tokens
  import opened Entries
  import Search

  /** What a Data holds: Data.value is an Object, and the tasks store codec values,
      Booleans and DataBlockArrays in it. `Plain(NbtValue(None))` is Java's null. */
  datatype Field = Plain(plain: Value) | Flag(flag: bool) | Blocks(blocks: DataBlockArray)

  /** The classes `get(name, clazz)` is asked for. */
  datatype FieldClass = ValueClassOf(c: ValueClass) | BooleanClass | DataBlockArrayClass

  const NULL: Field := Plain(NbtValue(None))

  /** Whether a field is an instance of class `c`; null is an instance of nothing. */
  predicate FieldIsInstance(f: Field, c: FieldClass) {
    match f
    case Plain(v) => c.ValueClassOf? && ValueIsInstance(v, c.c)
    case Flag(_) => c == BooleanClass || c == ValueClassOf(ObjectClass)
    case Blocks(_) => c == DataBlockArrayClass || c == ValueClassOf(ObjectClass)
  }

  class Data {
    const name: string
    var value: Field

    constructor (name: string, value: Field)
      ensures this.name == name && this.value == value
    {
      this.name := name;
      this.value := value;
    }

    method SetValue(value: Field)
      modifies this
      ensures this.value == value
    {
      this.value := value;
    }
  }

  class DataBlock {
    var data: seq<Data>

    constructor ()
      ensures data == []
    {
      data := [];
    }

    /** add(name, value): a new Data at the end; the earlier ones keep their order. */
    method Add(name: string, value: Field)
      modifies this
      ensures |data| == |old(data)| + 1 && data[..|old(data)|] == old(data)
      ensures fresh(data[|old(data)|])
      ensures data[|old(data)|].name == name && data[|old(data)|].value == value
    {
      var d := new Data(name, value);
      AddData(d);
    }

    /** add(data): the very object, appended. */
    method AddData(d: Data)
      modifies this
      ensures data == old(data) + [d]
    {
      data := data + [d];
    }

    /** contains: whether some element has the name. */
    predicate Contains(name: string)
      reads this
    {
      exists i :: 0 <= i < |data| && data[i].name == name
    }

    /** get(name): the first element in insertion order with the name, or null. */
    function Get(name: string): (r: Option<Data>)
      reads this
      ensures r.None? <==> !Contains(name)
      ensures r.Some? ==> exists i :: 0 <= i < |data| && data[i] == r.value && r.value.name == name &&
                                  forall j :: 0 <= j < i ==> data[j].name != name
    {
      Search.First(data, (d: Data) => d.name == name)
    }

    /** get(name, clazz): null when the name is absent, otherwise the first element's
        value cast to the class; a null value casts to anything. */
    function GetAs(name: string, c: FieldClass): (r: Result<Option<Field>>)
      reads this, data
      ensures !Contains(name) ==> r == Ok(None)
      ensures Contains(name) ==>
                var v := Get(name).value.value;
                (r.Ok? <==> FieldIsInstance(v, c) || v == NULL) &&
                (r.Ok? ==> r.value == (if v == NULL then None else Some(v))) &&
                (r.Err? ==> r.error == ClassCast)
    {
      match Get(name)
      case None => Ok(None)
      case Some(d) =>
        if d.value == NULL then Ok(None)
        else if FieldIsInstance(d.value, c) then Ok(Some(d.value))
        else Err(ClassCast)
    }

    /** isEmpty: no element, so no name is found. */
    predicate IsEmpty()
      reads this
      ensures IsEmpty() <==> forall name :: !Contains(name)
    {
      assert data != [] ==> Contains(data[0].name);
      data == []
    }

    /** update: the first element with the name takes the value; nothing happens when
        no element has the name. The list itself is untouched. */
    method Update(name: string, value: Field)
      modifies data
      ensures !old(Contains(name)) ==> unchanged(old(data))
      ensures old(Contains(name)) ==> old(Get(name)).value.value == value
      ensures forall d :: d in old(data) && Some(d) != old(Get(name)) ==> d.value == old(d.value)
    {
      if !Contains(name) {
        return;
      }
      var d := Get(name).value;
      d.SetValue(value);
    }

    /** putAll: `forEach(this::add)` over the other block's list. The other block's
        objects are appended, shared and in order. Given this very block, the first
        `add` changes the list being iterated, and ArrayList.forEach stops and throws
        ConcurrentModificationException. */
    method PutAll(other: DataBlock) returns (e: Option<Error>)
      modifies this
      ensures other != this ==> e == None && data == old(data) + old(other.data)
      ensures other == this && old(data) == [] ==> e == None && data == []
      ensures other == this && old(data) != [] ==>
                e == Some(ConcurrentModification) && data == old(data) + [old(data[0])]
    {
      var n := |other.data|;
      var i := 0;
      var changed := false;
      while !changed && i < n
        invariant 0 <= i <= n
        invariant other != this ==> !changed && other.data == old(other.data) &&
                                    n == |old(other.data)| && data == old(data) + old(other.data)[..i]
        invariant other == this ==> n == |old(data)| &&
                                    ((i == 0 && !changed && data == old(data)) ||
                                     (i == 1 && changed && data == old(data) + [old(data[0])]))
        decreases n - i
      {
        AddData(other.data[i]);
        // the add bumped the modification count of the list being iterated
        changed := other == this;
        i := i + 1;
      }
      if changed {
        return Some(ConcurrentModification);
      }
      return None;
    }
  }

  /** Looking up what was just added: after add(name, v), get(name) finds the first
      element under that name, which is the new one exactly when none was there. */
  lemma AddThenGet(before: seq<Data>, after: seq<Data>, name: string, d: Data)
    requires after == before + [d] && d.name == name
    ensures Search.First(after, (x: Data) => x.name == name).Some?
    ensures (forall j :: 0 <= j < |before| ==> before[j].name != name) ==>
              Search.First(after, (x: Data) => x.name == name) == Some(d)
    ensures (exists j :: 0 <= j < |before| && before[j].name == name) ==>
              Search.First(after, (x: Data) => x.name == name) == Search.First(before, (x: Data) => x.name == name)
  {
    var test := (x: Data) => x.name == name;
    if forall j :: 0 <= j < |before| ==> before[j].name != name {
      Search.FirstAt(after, test, |before|);
    } else {
      var r := Search.First(before, test);
      var i :| 0 <= i < |before| && before[i] == r.value && forall j :: 0 <= j < i ==> !test(before[j]);
      Search.FirstAt(after, test, i);
      Search.FirstAt(before, test, i);
    }
  }

  class DataBlockArray {
    var dataBlocks: seq<DataBlock>

    constructor ()
      ensures dataBlocks == []
    {
      dataBlocks := [];
    }

    /** create: a new empty block, appended and returned. */
    method Create() returns (block: DataBlock)
      modifies this
      ensures fresh(block) && block.data == []
      ensures dataBlocks == old(dataBlocks) + [block]
    {
      block := new DataBlock();
      dataBlocks := dataBlocks + [block];
    }

    /** size: the number of blocks created; iteration goes through `dataBlocks` in
        creation order. */
    function Size(): (n: nat)
      reads this
    {
      |dataBlocks|
    }
  }
}
