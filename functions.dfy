/**
 * The bookkeeping of the function compiler: the tables that make sure each
 * global's data, each referenced function and each lambda is declared only
 * once; the offsets at which array items and struct fields are stored; and
 * the binding of signature parameters when a function's code is finished.
 *
 * The code generator the compiler drives is represented only by what these
 * operations hand to it: data objects, function references, queued
 * functions and store requests.
 */
module CodegenFunctions {
  import opened Wrappers
  import opened CodegenConstData

  type Name = string

  /** A fully qualified name: the file and the name inside it. */
  datatype Fqn = Fqn(file: Name, name: Name)

  /** The name a data object is declared under: the mangled name of a
      global, or `.str<uid>` for a string literal. */
  datatype DataName = GlobalData(fqn: Fqn) | StrData(uid: nat)

  datatype DataObject = DataObject(name: DataName, bytes: seq<u8>)

  /** A function waiting to be compiled; lambdas have no name. */
  datatype FunctionToCompile = FunctionToCompile(fileName: Name, functionName: Option<Name>, lambda: nat)

  /** What a function reference declared in the current function points at. */
  datatype FuncTarget = NamedFunc(fqn: Fqn) | LambdaFunc(lambda: nat)

  /** A request to store expression `value` of type `ty`, `size` bytes, at
      `offset` in the current stack slot. */
  datatype StoreRequest = StoreRequest(value: nat, ty: nat, size: nat, offset: nat)

  /** A struct field's type and size. */
  datatype FieldTy = FieldTy(ty: nat, size: nat)

  predicate Distinct(s: seq<nat>)
  {
    forall i, j :: 0 <= i < j < |s| ==> s[i] != s[j]
  }

  /** Every named function in the table has its reference in `funcRefs`. */
  predicate FuncTable(localFunctions: map<Fqn, nat>, funcRefs: seq<FuncTarget>)
  {
    forall fqn :: fqn in localFunctions ==>
      localFunctions[fqn] < |funcRefs| && funcRefs[localFunctions[fqn]] == NamedFunc(fqn)
  }

  /** Every lambda in the table has its reference in `funcRefs`. */
  predicate LambdaTable(localLambdas: map<nat, nat>, funcRefs: seq<FuncTarget>)
  {
    forall l :: l in localLambdas ==> localLambdas[l] < |funcRefs| && funcRefs[localLambdas[l]] == LambdaFunc(l)
  }

  /** The lambda jobs of a stretch of the queue, in order: the jobs
      without a function name. */
  function UnnamedJobs(queue: seq<FunctionToCompile>): (r: seq<FunctionToCompile>)
    ensures |r| <= |queue|
    ensures forall i :: 0 <= i < |r| ==> r[i].functionName.None? && r[i] in queue
    ensures (forall i :: 0 <= i < |queue| ==> queue[i].functionName.Some?) ==> r == []
  {
    if |queue| == 0 then []
    else
      var last := queue[|queue| - 1];
      UnnamedJobs(queue[..|queue| - 1]) + (if last.functionName.None? then [last] else [])
  }

  /** Filtering the queue for lambda jobs distributes over concatenation. */
  lemma {:induction false} UnnamedJobsConcat(a: seq<FunctionToCompile>, b: seq<FunctionToCompile>)
    ensures UnnamedJobs(a + b) == UnnamedJobs(a) + UnnamedJobs(b)
    decreases |b|
  {
    if |b| == 0 {
      assert a + b == a;
    } else {
      var init := b[..|b| - 1];
      assert (a + b)[..|a + b| - 1] == a + init;
      assert (a + b)[|a + b| - 1] == b[|b| - 1];
      UnnamedJobsConcat(a, init);
    }
  }

  /** Since position `from` the queue holds one lambda job per lambda in
      the table, each lambda once, in the order `lambdas`; named jobs may
      sit between them. */
  ghost predicate QueueHolds(queue: seq<FunctionToCompile>, from: nat, fileName: Name, lambdas: seq<nat>, localLambdas: map<nat, nat>)
  {
    && from <= |queue|
    && |UnnamedJobs(queue[from..])| == |lambdas|
    && (forall i :: 0 <= i < |lambdas| ==> UnnamedJobs(queue[from..])[i] == FunctionToCompile(fileName, None, lambdas[i]))
    && Distinct(lambdas)
    && (forall i :: 0 <= i < |lambdas| ==> lambdas[i] in localLambdas)
    && (forall l :: l in localLambdas ==> l in lambdas)
  }

  /** A new named function reference keeps both tables valid. */
  lemma FuncAdded(localFunctions: map<Fqn, nat>, localLambdas: map<nat, nat>, funcRefs: seq<FuncTarget>, fqn: Fqn)
    requires FuncTable(localFunctions, funcRefs) && LambdaTable(localLambdas, funcRefs)
    ensures FuncTable(localFunctions[fqn := |funcRefs|], funcRefs + [NamedFunc(fqn)])
    ensures LambdaTable(localLambdas, funcRefs + [NamedFunc(fqn)])
  {
  }

  /** A new lambda reference, queued once, keeps the tables and the queue
      valid. */
  lemma LambdaAdded(localFunctions: map<Fqn, nat>, localLambdas: map<nat, nat>, funcRefs: seq<FuncTarget>,
                    queue: seq<FunctionToCompile>, from: nat, fileName: Name, lambdas: seq<nat>, lambda: nat)
    requires FuncTable(localFunctions, funcRefs) && LambdaTable(localLambdas, funcRefs)
    requires QueueHolds(queue, from, fileName, lambdas, localLambdas) && lambda !in localLambdas
    ensures FuncTable(localFunctions, funcRefs + [LambdaFunc(lambda)])
    ensures LambdaTable(localLambdas[lambda := |funcRefs|], funcRefs + [LambdaFunc(lambda)])
    ensures QueueHolds(queue + [FunctionToCompile(fileName, None, lambda)], from, fileName, lambdas + [lambda], localLambdas[lambda := |funcRefs|])
  {
    LambdaQueued(queue, from, fileName, lambdas, localLambdas, lambda, |funcRefs|);
  }

  lemma LambdaQueued(queue: seq<FunctionToCompile>, from: nat, fileName: Name, lambdas: seq<nat>,
                     localLambdas: map<nat, nat>, lambda: nat, ref: nat)
    requires QueueHolds(queue, from, fileName, lambdas, localLambdas) && lambda !in localLambdas
    ensures QueueHolds(queue + [FunctionToCompile(fileName, None, lambda)], from, fileName, lambdas + [lambda], localLambdas[lambda := ref])
  {
    var job := FunctionToCompile(fileName, None, lambda);
    JobsSnoc(queue, from, job);
    LambdasSnoc(lambdas, localLambdas, lambda, ref);
    var oldJobs := UnnamedJobs(queue[from..]);
    var jobs := UnnamedJobs((queue + [job])[from..]);
    var lambdas' := lambdas + [lambda];
    forall i | 0 <= i < |lambdas'|
      ensures jobs[i] == FunctionToCompile(fileName, None, lambdas'[i])
    {
      if i < |lambdas| {
        assert jobs[i] == oldJobs[i];
      }
    }
  }

  /** Appending one job to the queue appends it to the lambda jobs exactly
      when it has no name. */
  lemma JobsSnoc(queue: seq<FunctionToCompile>, from: nat, job: FunctionToCompile)
    requires from <= |queue|
    ensures UnnamedJobs((queue + [job])[from..]) == UnnamedJobs(queue[from..]) + (if job.functionName.None? then [job] else [])
  {
    assert (queue + [job])[from..] == queue[from..] + [job];
    UnnamedJobsConcat(queue[from..], [job]);
    assert [job][..0] == [];
  }

  /** A new lambda keeps the lambda list duplicate-free and in step with
      the table. */
  lemma LambdasSnoc(lambdas: seq<nat>, localLambdas: map<nat, nat>, lambda: nat, ref: nat)
    requires Distinct(lambdas) && lambda !in localLambdas
    requires (forall i :: 0 <= i < |lambdas| ==> lambdas[i] in localLambdas)
    requires (forall l :: l in localLambdas ==> l in lambdas)
    ensures Distinct(lambdas + [lambda])
    ensures forall i :: 0 <= i < |lambdas + [lambda]| ==> (lambdas + [lambda])[i] in localLambdas[lambda := ref]
    ensures forall l :: l in localLambdas[lambda := ref] ==> l in lambdas + [lambda]
  {
    var lambdas' := lambdas + [lambda];
    forall i, j | 0 <= i < j < |lambdas'| ensures lambdas'[i] != lambdas'[j] {
      assert lambdas'[i] == lambdas[i];
    }
    forall i | 0 <= i < |lambdas'| ensures lambdas'[i] in localLambdas[lambda := ref] {
      if i < |lambdas| {
        assert lambdas'[i] == lambdas[i];
      }
    }
  }

  /** Named jobs queued by declaring a function keep the lambda jobs as
      they are. */
  lemma NamedQueued(queue: seq<FunctionToCompile>, from: nat, fileName: Name, lambdas: seq<nat>,
                    localLambdas: map<nat, nat>, declared: seq<FunctionToCompile>)
    requires QueueHolds(queue, from, fileName, lambdas, localLambdas)
    requires forall i :: 0 <= i < |declared| ==> declared[i].functionName.Some?
    ensures QueueHolds(queue + declared, from, fileName, lambdas, localLambdas)
  {
    assert (queue + declared)[from..] == queue[from..] + declared;
    UnnamedJobsConcat(queue[from..], declared);
    assert queue[from..] + [] == queue[from..];
  }

  /** Every global in `globals` names the data object declared for it, and
      every data object of a global is the one `globals` names. */
  predicate GlobalsMatchData(globals: map<Fqn, nat>, data: seq<DataObject>)
  {
    && (forall fqn :: fqn in globals ==> globals[fqn] < |data| && data[globals[fqn]].name == GlobalData(fqn))
    && (forall k :: 0 <= k < |data| && data[k].name.GlobalData? ==>
          data[k].name.fqn in globals && globals[data[k].name.fqn] == k)
  }

  /** String data objects carry uids the generator has handed out. */
  predicate StrUidsBelow(data: seq<DataObject>, strIdGen: nat)
  {
    forall k :: 0 <= k < |data| && data[k].name.StrData? ==> data[k].name.uid < strIdGen
  }

  predicate StrUidsDistinct(data: seq<DataObject>)
  {
    forall i, j :: 0 <= i < j < |data| && data[i].name.StrData? && data[j].name.StrData? ==> data[i].name.uid != data[j].name.uid
  }

  /** The constant view of every file is closed. */
  predicate FilesClosed(files: map<Name, FileConsts>)
  {
    forall n :: n in files ==> ConstsClosed(files[n])
  }

  /** Declaring the data of a global not yet in the table keeps the tables
      in step. */
  lemma GlobalAdded(globals: map<Fqn, nat>, data: seq<DataObject>, strIdGen: nat, fqn: Fqn, bytes: seq<u8>)
    requires GlobalsMatchData(globals, data) && StrUidsBelow(data, strIdGen) && StrUidsDistinct(data)
    requires fqn !in globals
    ensures GlobalsMatchData(globals[fqn := |data|], data + [DataObject(GlobalData(fqn), bytes)])
    ensures StrUidsBelow(data + [DataObject(GlobalData(fqn), bytes)], strIdGen)
    ensures StrUidsDistinct(data + [DataObject(GlobalData(fqn), bytes)])
  {
    var data' := data + [DataObject(GlobalData(fqn), bytes)];
    forall k | 0 <= k < |data'| && data'[k].name.GlobalData?
      ensures data'[k].name.fqn in globals[fqn := |data|] && globals[fqn := |data|][data'[k].name.fqn] == k
    {
      if k < |data| {
        assert data'[k] == data[k];
      }
    }
  }

  /** Declaring a string under the next uid keeps the tables in step. */
  lemma StrAdded(globals: map<Fqn, nat>, data: seq<DataObject>, strIdGen: nat, bytes: seq<u8>)
    requires GlobalsMatchData(globals, data) && StrUidsBelow(data, strIdGen) && StrUidsDistinct(data)
    ensures GlobalsMatchData(globals, data + [DataObject(StrData(strIdGen), bytes)])
    ensures StrUidsBelow(data + [DataObject(StrData(strIdGen), bytes)], strIdGen + 1)
    ensures StrUidsDistinct(data + [DataObject(StrData(strIdGen), bytes)])
  {
    var data' := data + [DataObject(StrData(strIdGen), bytes)];
    forall k | 0 <= k < |data'| && data'[k].name.GlobalData?
      ensures data'[k].name.fqn in globals && globals[data'[k].name.fqn] == k
    {
      assert data'[k] == data[k];
    }
  }

  /** No data object is declared twice, which is what keeps the module's
      `declare_data` from failing. */
  lemma DataNamesDistinct(globals: map<Fqn, nat>, data: seq<DataObject>)
    requires GlobalsMatchData(globals, data) && StrUidsDistinct(data)
    ensures forall i, j :: 0 <= i < j < |data| ==> data[i].name != data[j].name
  {
    forall i, j | 0 <= i < j < |data|
      ensures data[i].name != data[j].name
    {
      if data[i].name.GlobalData? && data[j].name.GlobalData? {
        assert globals[data[i].name.fqn] == i;
        assert globals[data[j].name.fqn] == j;
      }
    }
  }

  class FunctionCompiler {
    /** The file of the function being compiled. */
    const fileName: Name
    /** The constant view of every file's expressions and types. */
    const files: map<Name, FileConsts>
    const bigEndian: bool

    /** The data objects of the module, in order of declaration; a `DataId`
        is an index. */
    var data: seq<DataObject>
    /** The module-wide table of globals with declared data. */
    var globals: map<Fqn, nat>
    var strIdGen: nat
    /** The queue of functions still to compile, shared by all functions. */
    var functionsToCompile: seq<FunctionToCompile>

    /** The function references declared in this function; a `FuncRef` is
        an index. */
    var funcRefs: seq<FuncTarget>
    var localFunctions: map<Fqn, nat>
    var localLambdas: map<nat, nat>

    var varIdGen: nat
    var params: map<nat, nat>
    var stores: seq<StoreRequest>

    /** How long the queue was when this function began, and the lambdas
        it has queued since. */
    ghost const queuedBefore: nat
    ghost var enqueued: seq<nat>

    ghost predicate Valid()
      reads this
    {
      && fileName in files
      && FilesClosed(files)
      && GlobalsMatchData(globals, data)
      && StrUidsBelow(data, strIdGen)
      && StrUidsDistinct(data)
      && FuncTable(localFunctions, funcRefs)
      && LambdaTable(localLambdas, funcRefs)
      && QueueHolds(functionsToCompile, queuedBefore, fileName, enqueued, localLambdas)
    }

    /** A compiler for one function, sharing the module's data, globals,
        string uids and queue with the others. */
    constructor (fileName: Name, files: map<Name, FileConsts>, bigEndian: bool,
                 data: seq<DataObject>, globals: map<Fqn, nat>, strIdGen: nat, functionsToCompile: seq<FunctionToCompile>)
      requires fileName in files && FilesClosed(files)
      requires GlobalsMatchData(globals, data) && StrUidsBelow(data, strIdGen) && StrUidsDistinct(data)
      ensures Valid()
      ensures this.data == data && this.globals == globals && this.strIdGen == strIdGen
      ensures this.functionsToCompile == functionsToCompile
      ensures funcRefs == [] && localFunctions == map[] && localLambdas == map[]
      ensures varIdGen == 0 && params == map[] && stores == []
    {
      this.fileName := fileName;
      this.files := files;
      this.bigEndian := bigEndian;
      this.data := data;
      this.globals := globals;
      this.strIdGen := strIdGen;
      this.functionsToCompile := functionsToCompile;
      funcRefs := [];
      localFunctions := map[];
      localLambdas := map[];
      varIdGen := 0;
      params := map[];
      stores := [];
      queuedBefore := |functionsToCompile|;
      enqueued := [];
    }

    /** The image of the constant data of global `fqn`, or `None` when the
        file has no such global or its body is not constant. Meta types are
        looked up in the current file's table. */
    ghost function GlobalImage(fqn: Fqn): Option<seq<Slot>>
      requires fileName in files && FilesClosed(files)
    {
      if fqn.file in files && fqn.name in files[fqn.file].globalBodies then
        ConstImage(files[fqn.file], files[fileName].metaTyIds, bigEndian, files[fqn.file].globalBodies[fqn.name])
      else None
    }

    /** `create_global_data`: declares and defines one data object. */
    method CreateGlobalData(name: DataName, bytes: seq<u8>) returns (id: nat)
      modifies this
      ensures id == |old(data)| && data == old(data) + [DataObject(name, bytes)]
      ensures globals == old(globals) && strIdGen == old(strIdGen) && functionsToCompile == old(functionsToCompile)
      ensures funcRefs == old(funcRefs) && localFunctions == old(localFunctions) && localLambdas == old(localLambdas)
      ensures varIdGen == old(varIdGen) && params == old(params) && stores == old(stores) && enqueued == old(enqueued)
    {
      id := |data|;
      data := data + [DataObject(name, bytes)];
    }

    /** The data of global `fqn`, declared on first use and then taken from
        `globals`: a repeated call returns the same id and declares nothing. */
    method CompileGlobalBindingData(fqn: Fqn) returns (r: Option<nat>)
      requires Valid()
      modifies this
      ensures Valid()
      ensures fqn in old(globals) ==> r == Some(old(globals[fqn])) && data == old(data) && globals == old(globals)
      ensures fqn !in old(globals) ==>
        var image := GlobalImage(fqn);
        && r.Some? == image.Some?
        && (r.None? ==> data == old(data) && globals == old(globals))
        && (r.Some? ==>
              && r.value == |old(data)|
              && |data| == |old(data)| + 1 && data[..|old(data)|] == old(data)
              && data[r.value].name == GlobalData(fqn) && Fills(data[r.value].bytes, image.value)
              && globals == old(globals)[fqn := r.value])
      ensures strIdGen == old(strIdGen) && functionsToCompile == old(functionsToCompile)
      ensures funcRefs == old(funcRefs) && localFunctions == old(localFunctions) && localLambdas == old(localLambdas)
      ensures varIdGen == old(varIdGen) && params == old(params) && stores == old(stores) && enqueued == old(enqueued)
    {
      if fqn in globals {
        return Some(globals[fqn]);
      }
      if !(fqn.file in files && fqn.name in files[fqn.file].globalBodies) {
        return None;
      }
      var value := files[fqn.file].globalBodies[fqn.name];
      var bytes := ExprToConstData(files[fqn.file], files[fileName].metaTyIds, bigEndian, value);
      if bytes.None? {
        return None;
      }
      GlobalAdded(globals, data, strIdGen, fqn, bytes.value);
      var global := CreateGlobalData(GlobalData(fqn), bytes.value);
      globals := globals[fqn := global];
      r := Some(global);
    }

    /** `create_global_str`: a data object `.str<uid>` holding the text and
        a terminating zero, under a fresh uid. */
    method CreateGlobalStr(text: string) returns (id: nat)
      requires Valid()
      modifies this
      ensures Valid()
      ensures id == |old(data)| && data == old(data) + [DataObject(StrData(old(strIdGen)), StringConstData(text))]
      ensures strIdGen == old(strIdGen) + 1
      ensures globals == old(globals) && functionsToCompile == old(functionsToCompile)
      ensures funcRefs == old(funcRefs) && localFunctions == old(localFunctions) && localLambdas == old(localLambdas)
      ensures varIdGen == old(varIdGen) && params == old(params) && stores == old(stores) && enqueued == old(enqueued)
    {
      var uid := strIdGen;
      StrAdded(globals, data, strIdGen, StringConstData(text));
      strIdGen := strIdGen + 1;
      id := CreateGlobalData(StrData(uid), StringConstData(text));
    }

    /** A reference to function `fqn` in the current function, declared on
        first use: a repeated call returns the same reference. `declared`
        stands for the jobs the module-wide `get_func_id` queues while
        declaring a function it has not seen; they are named jobs. */
    method GetLocalFunc(fqn: Fqn, declared: seq<FunctionToCompile>) returns (r: nat)
      requires Valid()
      requires forall i :: 0 <= i < |declared| ==> declared[i].functionName.Some?
      modifies this
      ensures Valid()
      ensures fqn in old(localFunctions) ==>
        && r == old(localFunctions[fqn]) && funcRefs == old(funcRefs) && localFunctions == old(localFunctions)
        && functionsToCompile == old(functionsToCompile)
      ensures fqn !in old(localFunctions) ==>
        && r == |old(funcRefs)| && funcRefs == old(funcRefs) + [NamedFunc(fqn)]
        && localFunctions == old(localFunctions)[fqn := r]
        && functionsToCompile == old(functionsToCompile) + declared
      ensures data == old(data) && globals == old(globals) && strIdGen == old(strIdGen) && localLambdas == old(localLambdas)
      ensures varIdGen == old(varIdGen) && params == old(params) && stores == old(stores) && enqueued == old(enqueued)
    {
      if fqn in localFunctions {
        return localFunctions[fqn];
      }
      NamedQueued(functionsToCompile, queuedBefore, fileName, enqueued, localLambdas, declared);
      functionsToCompile := functionsToCompile + declared;
      FuncAdded(localFunctions, localLambdas, funcRefs, fqn);
      r := |funcRefs|;
      funcRefs := funcRefs + [NamedFunc(fqn)];
      localFunctions := localFunctions[fqn := r];
    }

    /** A reference to `lambda`: on first use the lambda is queued for
        compilation and declared; later calls return the same reference and
        queue nothing. */
    method UnnamedFuncToLocal(lambda: nat) returns (r: nat)
      requires Valid()
      modifies this
      ensures Valid()
      ensures lambda in old(localLambdas) ==>
        && r == old(localLambdas[lambda]) && funcRefs == old(funcRefs) && localLambdas == old(localLambdas)
        && functionsToCompile == old(functionsToCompile) && enqueued == old(enqueued)
      ensures lambda !in old(localLambdas) ==>
        && functionsToCompile == old(functionsToCompile) + [FunctionToCompile(fileName, None, lambda)]
        && enqueued == old(enqueued) + [lambda]
        && r == |old(funcRefs)| && funcRefs == old(funcRefs) + [LambdaFunc(lambda)]
        && localLambdas == old(localLambdas)[lambda := r]
      ensures data == old(data) && globals == old(globals) && strIdGen == old(strIdGen) && localFunctions == old(localFunctions)
      ensures varIdGen == old(varIdGen) && params == old(params) && stores == old(stores)
    {
      if lambda in localLambdas {
        return localLambdas[lambda];
      }
      LambdaAdded(localFunctions, localLambdas, funcRefs, functionsToCompile, queuedBefore, fileName, enqueued, lambda);
      functionsToCompile := functionsToCompile + [FunctionToCompile(fileName, None, lambda)];
      enqueued := enqueued + [lambda];
      r := |funcRefs|;
      funcRefs := funcRefs + [LambdaFunc(lambda)];
      localLambdas := localLambdas[lambda := r];
    }

    /** Each lambda is queued at most once by this function, in its own
        file, and exactly the lambdas it holds references to. */
    lemma QueuedOnce()
      requires Valid()
      ensures var jobs := UnnamedJobs(functionsToCompile[queuedBefore..]);
        && (forall i, j :: 0 <= i < j < |jobs| ==> jobs[i].lambda != jobs[j].lambda)
        && (forall i :: 0 <= i < |jobs| ==>
              jobs[i] == FunctionToCompile(fileName, None, jobs[i].lambda) && jobs[i].lambda in localLambdas)
        && (forall l :: l in localLambdas ==> exists i :: 0 <= i < |jobs| && jobs[i].lambda == l)
    {
      var jobs := UnnamedJobs(functionsToCompile[queuedBefore..]);
      assert forall i :: 0 <= i < |jobs| ==> jobs[i].lambda == enqueued[i];
      forall l | l in localLambdas
        ensures exists i :: 0 <= i < |jobs| && jobs[i].lambda == l
      {
        var i :| 0 <= i < |enqueued| && enqueued[i] == l;
        assert jobs[i].lambda == l;
      }
    }

    /** `store_array_items`: item `i` is stored at `offset + stride * i`,
        with the type and stride of the first item; no items is a failed
        assertion. */
    method StoreArrayItems(items: seq<nat>, offset: nat) returns (failed: bool)
      requires Valid() && AllBelow(items, |files[fileName].exprs|)
      modifies this
      ensures failed <==> items == []
      ensures !failed ==>
        var inner := files[fileName].tys[items[0]];
        && |stores| == |old(stores)| + |items| && stores[..|old(stores)|] == old(stores)
        && forall i :: 0 <= i < |items| ==>
             stores[|old(stores)| + i] == StoreRequest(items[i], inner.ty, inner.stride, offset + inner.stride * i)
      ensures data == old(data) && globals == old(globals) && strIdGen == old(strIdGen)
      ensures functionsToCompile == old(functionsToCompile) && enqueued == old(enqueued)
      ensures funcRefs == old(funcRefs) && localFunctions == old(localFunctions) && localLambdas == old(localLambdas)
      ensures varIdGen == old(varIdGen) && params == old(params)
    {
      if items == [] {
        return true;
      }
      assert ConstsClosed(files[fileName]);
      var inner := files[fileName].tys[items[0]];
      var idx := 0;
      while idx < |items|
        invariant 0 <= idx <= |items|
        invariant |stores| == |old(stores)| + idx && stores[..|old(stores)|] == old(stores)
        invariant forall i :: 0 <= i < idx ==>
          stores[|old(stores)| + i] == StoreRequest(items[i], inner.ty, inner.stride, offset + inner.stride * i)
        invariant data == old(data) && globals == old(globals) && strIdGen == old(strIdGen)
        invariant functionsToCompile == old(functionsToCompile) && enqueued == old(enqueued)
        invariant funcRefs == old(funcRefs) && localFunctions == old(localFunctions) && localLambdas == old(localLambdas)
        invariant varIdGen == old(varIdGen) && params == old(params)
      {
        stores := stores + [StoreRequest(items[idx], inner.ty, inner.stride, offset + inner.stride * idx)];
        idx := idx + 1;
      }
      failed := false;
    }

    /** `store_struct_fields`: field `i` is stored at `offset + offsets[i]`
        with its own type and size; more values than fields is an index
        out of bounds. */
    method StoreStructFields(fields: seq<FieldTy>, offsets: seq<nat>, values: seq<nat>, offset: nat)
      returns (failed: bool)
      modifies this
      ensures failed <==> |values| > |fields| || |values| > |offsets|
      ensures !failed ==>
        && |stores| == |old(stores)| + |values| && stores[..|old(stores)|] == old(stores)
        && forall i :: 0 <= i < |values| ==>
             stores[|old(stores)| + i] == StoreRequest(values[i], fields[i].ty, fields[i].size, offset + offsets[i])
      ensures data == old(data) && globals == old(globals) && strIdGen == old(strIdGen)
      ensures functionsToCompile == old(functionsToCompile) && enqueued == old(enqueued)
      ensures funcRefs == old(funcRefs) && localFunctions == old(localFunctions) && localLambdas == old(localLambdas)
      ensures varIdGen == old(varIdGen) && params == old(params)
    {
      var idx := 0;
      while idx < |values|
        invariant 0 <= idx <= |values| && idx <= |fields| && idx <= |offsets|
        invariant |stores| == |old(stores)| + idx && stores[..|old(stores)|] == old(stores)
        invariant forall i :: 0 <= i < idx ==>
          stores[|old(stores)| + i] == StoreRequest(values[i], fields[i].ty, fields[i].size, offset + offsets[i])
        invariant data == old(data) && globals == old(globals) && strIdGen == old(strIdGen)
        invariant functionsToCompile == old(functionsToCompile) && enqueued == old(enqueued)
        invariant funcRefs == old(funcRefs) && localFunctions == old(localFunctions) && localLambdas == old(localLambdas)
        invariant varIdGen == old(varIdGen) && params == old(params)
      {
        if idx >= |fields| || idx >= |offsets| {
          return true;
        }
        stores := stores + [StoreRequest(values[idx], fields[idx].ty, fields[idx].size, offset + offsets[idx])];
        idx := idx + 1;
      }
      failed := false;
    }

    /** The parameter binding at the start of `finish`: parameter `idx` of
        the signature gets the variable `varIdGen + idx`; if it has an entry
        in `newIdxToOldIdx` it becomes the variable of the original parameter
        it stands for, otherwise it is the destination parameter, of which
        there must be at most one. */
    method BindParams(paramCount: nat, newIdxToOldIdx: map<nat, nat>) returns (failed: bool, destParam: Option<nat>)
      modifies this
      ensures failed <==> |Unmapped(newIdxToOldIdx, paramCount)| >= 2
      ensures !failed ==>
        var unmapped := Unmapped(newIdxToOldIdx, paramCount);
        && destParam == (if unmapped == [] then None else Some(old(varIdGen) + unmapped[0]))
        && params == ParamsBound(old(params), newIdxToOldIdx, paramCount, old(varIdGen))
        && varIdGen == old(varIdGen) + paramCount
      ensures data == old(data) && globals == old(globals) && strIdGen == old(strIdGen)
      ensures functionsToCompile == old(functionsToCompile) && enqueued == old(enqueued)
      ensures funcRefs == old(funcRefs) && localFunctions == old(localFunctions) && localLambdas == old(localLambdas)
      ensures stores == old(stores)
    {
      destParam := None;
      var idx := 0;
      while idx < paramCount
        invariant 0 <= idx <= paramCount
        invariant varIdGen == old(varIdGen) + idx
        invariant |Unmapped(newIdxToOldIdx, idx)| <= 1
        invariant destParam == (if Unmapped(newIdxToOldIdx, idx) == [] then None
                                else Some(old(varIdGen) + Unmapped(newIdxToOldIdx, idx)[0]))
        invariant params == ParamsBound(old(params), newIdxToOldIdx, idx, old(varIdGen))
        invariant data == old(data) && globals == old(globals) && strIdGen == old(strIdGen)
        invariant functionsToCompile == old(functionsToCompile) && enqueued == old(enqueued)
        invariant funcRefs == old(funcRefs) && localFunctions == old(localFunctions) && localLambdas == old(localLambdas)
        invariant stores == old(stores)
      {
        var v := varIdGen;
        varIdGen := varIdGen + 1;
        if idx in newIdxToOldIdx {
          params := params[newIdxToOldIdx[idx] := v];
        } else {
          if destParam.Some? {
            UnmappedGrows(newIdxToOldIdx, idx + 1, paramCount);
            return true, destParam;
          }
          destParam := Some(v);
        }
        idx := idx + 1;
      }
      failed := false;
    }
  }

  /** The signature parameters below `n` without an original parameter, in
      order. */
  function Unmapped(m: map<nat, nat>, n: nat): (r: seq<nat>)
  {
    if n == 0 then [] else Unmapped(m, n - 1) + (if n - 1 in m then [] else [n - 1])
  }

  lemma {:induction false} UnmappedGrows(m: map<nat, nat>, n: nat, n': nat)
    requires n <= n'
    ensures |Unmapped(m, n)| <= |Unmapped(m, n')|
    decreases n' - n
  {
    if n < n' {
      UnmappedGrows(m, n, n' - 1);
    }
  }

  /** Exactly the parameters below `n` without an entry are unmapped, each
      once and in increasing order. */
  lemma {:induction false} UnmappedSpec(m: map<nat, nat>, n: nat)
    ensures forall x: nat :: x in Unmapped(m, n) <==> x < n && x !in m
    ensures forall i, j :: 0 <= i < j < |Unmapped(m, n)| ==> Unmapped(m, n)[i] < Unmapped(m, n)[j]
  {
    if n > 0 {
      UnmappedSpec(m, n - 1);
      var u := Unmapped(m, n - 1);
      var tail: seq<nat> := if n - 1 in m then [] else [n - 1];
      assert Unmapped(m, n) == u + tail;
      forall x: nat
        ensures x in Unmapped(m, n) <==> x < n && x !in m
      {
        assert x in u <==> x < n - 1 && x !in m;
        assert x in u + tail <==> x in u || x in tail;
      }
      forall i | 0 <= i < |u|
        ensures u[i] < n - 1
      {
        assert u[i] in u;
      }
    }
  }

  /** The parameter table after binding the parameters below `n`, the
      variable of parameter `idx` being `v0 + idx`. */
  function ParamsBound(params: map<nat, nat>, m: map<nat, nat>, n: nat, v0: nat): map<nat, nat>
  {
    if n == 0 then params
    else
      var before := ParamsBound(params, m, n - 1, v0);
      if n - 1 in m then before[m[n - 1] := v0 + n - 1] else before
  }

  /** An original parameter is bound after binding exactly when it was
      before or some mapped signature parameter stands for it. */
  lemma {:induction false} ParamsBoundDomain(params: map<nat, nat>, m: map<nat, nat>, n: nat, v0: nat, k: nat)
    ensures k in ParamsBound(params, m, n, v0) <==> k in params || exists idx :: 0 <= idx < n && idx in m && m[idx] == k
  {
    if n > 0 {
      ParamsBoundDomain(params, m, n - 1, v0, k);
      if n - 1 in m && m[n - 1] == k {
        assert k in ParamsBound(params, m, n, v0);
      }
    }
  }

  /** A bound original parameter gets the variable of the last signature
      parameter that stands for it. */
  lemma {:induction false} ParamsBoundLast(params: map<nat, nat>, m: map<nat, nat>, n: nat, v0: nat, idx: nat)
    requires idx < n && idx in m
    requires forall idx' :: idx < idx' < n && idx' in m ==> m[idx'] != m[idx]
    ensures m[idx] in ParamsBound(params, m, n, v0) && ParamsBound(params, m, n, v0)[m[idx]] == v0 + idx
  {
    if idx < n - 1 {
      ParamsBoundLast(params, m, n - 1, v0, idx);
    }
  }

  /** An original parameter no signature parameter stands for keeps its
      earlier binding. */
  lemma {:induction false} ParamsBoundUntouched(params: map<nat, nat>, m: map<nat, nat>, n: nat, v0: nat, k: nat)
    requires k in params
    requires forall idx :: 0 <= idx < n && idx in m ==> m[idx] != k
    ensures k in ParamsBound(params, m, n, v0) && ParamsBound(params, m, n, v0)[k] == params[k]
  {
    if n > 0 {
      ParamsBoundUntouched(params, m, n - 1, v0, k);
    }
  }
}
